/** What one `readdir` call puts into its reply buffer, as a function of the
    listing, the resume index and the buffer, and what successive calls that
    resume from the last cookie deliver together. */
module Paging {
  import opened Posix
  import opened Fuse
  import opened Reply

  /** A listing row `(ino, kind, name)` before it is given its cookie. */
  datatype Listed = Listed(ino: u64, kind: FileType, name: string)

  /** A listing short enough for every cookie `(i + 1) as i64` to be exact. */
  predicate Indexable(entries: seq<Listed>) {
    |entries| < TWO_63
  }

  /** Row `i` as added to the buffer: its cookie is the index of the row
      that follows it. */
  function Tag(entries: seq<Listed>, i: nat): (e: DirEntry)
    requires Indexable(entries) && i < |entries|
    ensures AsU64(e.offset) == i + 1
  {
    DirEntry(entries[i].ino, i + 1, entries[i].kind, entries[i].name)
  }

  /** `es` is the run of rows `i`, `i + 1`, ... of the listing, each with its cookie. */
  predicate IsRun(entries: seq<Listed>, i: nat, es: seq<DirEntry>)
    requires Indexable(entries)
  {
    i + |es| <= |entries| && forall k :: 0 <= k < |es| ==> es[k] == Tag(entries, i + k)
  }

  /** A run from `i + 1` with row `i` put in front is a run from `i`. */
  lemma RunCons(entries: seq<Listed>, i: nat, q: seq<DirEntry>)
    requires Indexable(entries) && i < |entries|
    requires IsRun(entries, i + 1, q)
    ensures IsRun(entries, i, [Tag(entries, i)] + q)
  {
    var p := [Tag(entries, i)] + q;
    forall k | 0 <= k < |p|
      ensures p[k] == Tag(entries, i + k)
    {
      if k > 0 {
        assert p[k] == q[k - 1];
      }
    }
  }

  /** Two runs that meet make one run. */
  lemma RunConcat(entries: seq<Listed>, i: nat, p: seq<DirEntry>, q: seq<DirEntry>)
    requires Indexable(entries)
    requires IsRun(entries, i, p) && IsRun(entries, i + |p|, q)
    ensures IsRun(entries, i, p + q)
  {
    forall k | 0 <= k < |p + q|
      ensures (p + q)[k] == Tag(entries, i + k)
    {
      if k >= |p| {
        assert (p + q)[k] == q[k - |p|];
      }
    }
  }

  /** The calls a `readdir` loop that starts at row `i` makes on a buffer of
      `cap` bytes with `used` bytes taken: one `add` per row until the first
      one the buffer rejects. */
  function PageCalls(entries: seq<Listed>, i: nat, used: nat, cap: nat): (calls: seq<DirCall>)
    requires Indexable(entries)
    decreases |entries| - i
  {
    if i >= |entries| then []
    else
      var size := EntrySize(entries[i].name);
      if used + size > cap then [DirAdd(Tag(entries, i), true)]
      else [DirAdd(Tag(entries, i), false)] + PageCalls(entries, i + 1, used + size, cap)
  }

  /** The entries such a call leaves in the buffer: the rows from `i` on,
      for as long as each still fits. */
  function Page(entries: seq<Listed>, i: nat, used: nat, cap: nat): (p: seq<DirEntry>)
    requires Indexable(entries)
    decreases |entries| - i
  {
    if i >= |entries| then []
    else
      var size := EntrySize(entries[i].name);
      if used + size > cap then []
      else [Tag(entries, i)] + Page(entries, i + 1, used + size, cap)
  }

  /** One step of the loop, as calls: the row at `i` is either rejected,
      ending the calls, or accepted in front of the calls that follow. */
  lemma CallsStep(entries: seq<Listed>, i: nat, used: nat, cap: nat)
    requires Indexable(entries) && i < |entries|
    ensures var size := EntrySize(entries[i].name);
      PageCalls(entries, i, used, cap) ==
        if used + size > cap then [DirAdd(Tag(entries, i), true)]
        else [DirAdd(Tag(entries, i), false)] + PageCalls(entries, i + 1, used + size, cap)
  {
  }

  /** One step of the loop, as entries: the row at `i` is either rejected,
      ending the page, or accepted in front of the page that follows, and
      then the page takes its bytes in addition. */
  lemma PageStep(entries: seq<Listed>, i: nat, used: nat, cap: nat)
    requires Indexable(entries) && i < |entries|
    ensures var size := EntrySize(entries[i].name);
      if used + size > cap then Page(entries, i, used, cap) == []
      else
        Page(entries, i, used, cap) == [Tag(entries, i)] + Page(entries, i + 1, used + size, cap) &&
        BytesOf(Page(entries, i, used, cap)) == size + BytesOf(Page(entries, i + 1, used + size, cap))
  {
    var size := EntrySize(entries[i].name);
    if used + size <= cap {
      var q := Page(entries, i + 1, used + size, cap);
      assert ([Tag(entries, i)] + q)[1..] == q;
    }
  }

  /** One step of the `readdir` loop. When the calls made so far followed by
      the calls of the page from row `i` are `total`, and the entries
      buffered so far followed by that page are `content`, adding row `i`
      either ends the page (the row was rejected, and what was made is
      `total` and `content`) or leaves the page from row `i + 1` to follow. */
  lemma AddStep(entries: seq<Listed>, i: nat, cap: nat, full: bool,
                used: nat, before: seq<DirCall>, buf: seq<DirEntry>,
                used': nat, after: seq<DirCall>, buf': seq<DirEntry>,
                total: seq<DirCall>, content: seq<DirEntry>)
    requires Indexable(entries) && i < |entries|
    requires total == before + PageCalls(entries, i, used, cap)
    requires content == buf + Page(entries, i, used, cap)
    requires full <==> used + EntrySize(entries[i].name) > cap
    requires after == before + [DirAdd(Tag(entries, i), full)]
    requires full ==> buf' == buf
    requires !full ==> buf' == buf + [Tag(entries, i)] && used' == used + EntrySize(entries[i].name)
    ensures full ==> total == after && content == buf'
    ensures !full ==> total == after + PageCalls(entries, i + 1, used', cap)
    ensures !full ==> content == buf' + Page(entries, i + 1, used', cap)
  {
    CallsStep(entries, i, used, cap);
    PageStep(entries, i, used, cap);
    if !full {
      ConcatAssoc(before, [DirAdd(Tag(entries, i), false)], PageCalls(entries, i + 1, used', cap));
      ConcatAssoc(buf, [Tag(entries, i)], Page(entries, i + 1, used', cap));
    } else {
      assert buf + [] == buf;
    }
  }

  /** A page is the contiguous run of rows starting at `i`, each with its
      cookie, and it fits in the buffer. */
  lemma {:induction false} PageIsRun(entries: seq<Listed>, i: nat, used: nat, cap: nat)
    requires Indexable(entries)
    requires used <= cap
    ensures var p := Page(entries, i, used, cap);
      && (i >= |entries| ==> p == [])
      && (i < |entries| ==> IsRun(entries, i, p))
      && used + BytesOf(p) <= cap
    decreases |entries| - i
  {
    if i < |entries| {
      var size := EntrySize(entries[i].name);
      PageStep(entries, i, used, cap);
      if used + size <= cap {
        var q := Page(entries, i + 1, used + size, cap);
        PageIsRun(entries, i + 1, used + size, cap);
        RunCons(entries, i, q);
      }
    }
  }

  lemma ConcatAssoc<T>(a: seq<T>, b: seq<T>, c: seq<T>)
    ensures a + (b + c) == (a + b) + c
  {
  }

  /** An accepted `add` for each entry, in order. */
  function Adds(es: seq<DirEntry>): (calls: seq<DirCall>)
    ensures |calls| == |es|
  {
    if es == [] then [] else [DirAdd(es[0], false)] + Adds(es[1..])
  }

  /** The `k`th accepted `add` is the one of the `k`th entry. */
  lemma {:induction false} AddsAt(es: seq<DirEntry>, k: nat)
    requires k < |es|
    ensures Adds(es)[k] == DirAdd(es[k], false)
  {
    if k > 0 {
      AddsAt(es[1..], k - 1);
    }
  }

  /** The calls of a page: an accepted `add` for each entry of the page and
      then, unless the listing ran out, one rejected `add` of the next row;
      nothing is added after a rejection. */
  lemma {:induction false} PageCallsForm(entries: seq<Listed>, i: nat, used: nat, cap: nat)
    requires Indexable(entries)
    ensures var p := Page(entries, i, used, cap);
      i + |p| < |entries| ==>
        PageCalls(entries, i, used, cap) == Adds(p) + [DirAdd(Tag(entries, i + |p|), true)]
    ensures var p := Page(entries, i, used, cap);
      i + |p| >= |entries| ==> PageCalls(entries, i, used, cap) == Adds(p)
    decreases |entries| - i
  {
    var calls := PageCalls(entries, i, used, cap);
    var p := Page(entries, i, used, cap);
    if i >= |entries| {
      assert calls == [] && p == [];
    } else {
      var size := EntrySize(entries[i].name);
      var t := Tag(entries, i);
      CallsStep(entries, i, used, cap);
      PageStep(entries, i, used, cap);
      if used + size > cap {
        assert calls == [DirAdd(t, true)] && p == [];
      } else {
        var rest := PageCalls(entries, i + 1, used + size, cap);
        var q := Page(entries, i + 1, used + size, cap);
        PageCallsForm(entries, i + 1, used + size, cap);
        assert i + |p| == (i + 1) + |q|;
        assert p == [t] + q;
        assert p[1..] == q;
        assert Adds(p) == [DirAdd(t, false)] + Adds(q);
        assert calls == [DirAdd(t, false)] + rest;
        if i + |p| < |entries| {
          var r := [DirAdd(Tag(entries, i + |p|), true)];
          assert rest == Adds(q) + r;
          ConcatAssoc([DirAdd(t, false)], Adds(q), r);
          assert calls == Adds(p) + r;
        }
      }
    }
  }

  /** The page stops at the first row the buffer rejects: the row after
      the page, if any, did not fit in what the page left free. */
  lemma {:induction false} PageStopsAtRejection(entries: seq<Listed>, i: nat, used: nat, cap: nat)
    requires Indexable(entries)
    ensures var p := Page(entries, i, used, cap);
      i + |p| < |entries| ==> used + BytesOf(p) + EntrySize(entries[i + |p|].name) > cap
    decreases |entries| - i
  {
    if i < |entries| {
      var size := EntrySize(entries[i].name);
      var p := Page(entries, i, used, cap);
      PageStep(entries, i, used, cap);
      if used + size > cap {
        assert p == [];
        assert BytesOf(p) == 0;
      } else {
        var q := Page(entries, i + 1, used + size, cap);
        PageStopsAtRejection(entries, i + 1, used + size, cap);
        assert p == [Tag(entries, i)] + q;
        assert BytesOf(p) == size + BytesOf(q);
        assert i + |p| == (i + 1) + |q|;
      }
    }
  }

  /** The cookie of the last entry of a non-empty page, read back as the
      resume index, is the row right after the page. */
  lemma LastCookie(entries: seq<Listed>, i: nat, cap: nat)
    requires Indexable(entries)
    requires Page(entries, i, 0, cap) != []
    ensures var p := Page(entries, i, 0, cap);
      i + |p| <= |entries| && AsU64(p[|p| - 1].offset) == i + |p|
  {
    PageIsRun(entries, i, 0, cap);
  }

  /** Resuming from the last cookie of a page neither repeats nor skips a
      row: the two pages together are the contiguous run from `i`. */
  lemma ResumeFromLastCookie(entries: seq<Listed>, i: nat, cap: nat, cap': nat)
    requires Indexable(entries)
    requires Page(entries, i, 0, cap) != []
    ensures var p := Page(entries, i, 0, cap);
      var next := AsU64(p[|p| - 1].offset);
      next == i + |p| && IsRun(entries, i, p + Page(entries, next, 0, cap'))
  {
    var p := Page(entries, i, 0, cap);
    LastCookie(entries, i, cap);
    var next := i + |p|;
    var q := Page(entries, next, 0, cap');
    PageIsRun(entries, i, 0, cap);
    PageIsRun(entries, next, 0, cap');
    RunConcat(entries, i, p, q);
  }

  /** The listing a reader obtains by calling `readdir` from row `i` with
      fresh buffers of `cap` bytes, resuming each time from the last cookie,
      until a call returns no entry. */
  function Drain(entries: seq<Listed>, i: nat, cap: nat): (d: seq<DirEntry>)
    requires Indexable(entries)
    decreases |entries| - i
  {
    var p := Page(entries, i, 0, cap);
    if p == [] then []
    else
      LastCookie(entries, i, cap);
      p + Drain(entries, AsU64(p[|p| - 1].offset), cap)
  }

  /** Paging never repeats or skips a row: whatever the buffer size, the
      concatenated pages are the contiguous run of rows from `i`. */
  lemma {:induction false} DrainIsRun(entries: seq<Listed>, i: nat, cap: nat)
    requires Indexable(entries)
    ensures Drain(entries, i, cap) != [] ==> IsRun(entries, i, Drain(entries, i, cap))
    decreases |entries| - i
  {
    var p := Page(entries, i, 0, cap);
    if p != [] {
      LastCookie(entries, i, cap);
      PageIsRun(entries, i, 0, cap);
      var next := i + |p|;
      var rest := Drain(entries, next, cap);
      DrainIsRun(entries, next, cap);
      assert Drain(entries, i, cap) == p + rest;
      if rest == [] {
        assert p + rest == p;
      } else {
        RunConcat(entries, i, p, rest);
      }
    }
  }

  /** When every row fits in an empty buffer, paging from `i` delivers every
      remaining row. */
  lemma {:induction false} DrainComplete(entries: seq<Listed>, i: nat, cap: nat)
    requires Indexable(entries)
    requires i <= |entries|
    requires forall j :: 0 <= j < |entries| ==> EntrySize(entries[j].name) <= cap
    ensures |Drain(entries, i, cap)| == |entries| - i
    decreases |entries| - i
  {
    if i < |entries| {
      var p := Page(entries, i, 0, cap);
      PageStopsAtRejection(entries, i, 0, cap);
      assert p != [];
      LastCookie(entries, i, cap);
      assert Drain(entries, i, cap) == p + Drain(entries, i + |p|, cap);
      DrainComplete(entries, i + |p|, cap);
    }
  }

  /** Every row with its cookie, in order. */
  function Listing(entries: seq<Listed>): (r: seq<DirEntry>)
    requires Indexable(entries)
  {
    seq(|entries|, k requires 0 <= k < |entries| => Tag(entries, k))
  }

  /** Paging from the start with a buffer that holds any single row yields
      the whole listing, each row exactly once and in order. */
  lemma DrainFromStart(entries: seq<Listed>, cap: nat)
    requires Indexable(entries)
    requires forall j :: 0 <= j < |entries| ==> EntrySize(entries[j].name) <= cap
    ensures Drain(entries, 0, cap) == Listing(entries)
  {
    var d := Drain(entries, 0, cap);
    DrainIsRun(entries, 0, cap);
    DrainComplete(entries, 0, cap);
    var l := Listing(entries);
    assert |d| == |l|;
    forall k | 0 <= k < |d|
      ensures d[k] == l[k]
    {
      assert d[k] == Tag(entries, k);
    }
  }
}
