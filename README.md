# SwatchFS adapter model

This project models the request handling of `SwatchFS`, a read-only FUSE
adapter. `SwatchFS` exposes a backing directory at a mount point. The model
covers the function that translates a backing `stat` record into the
protocol's attribute record (`meta_into_file_attr`), the one-second cache
lifetime `TTL`, and the four request handlers `lookup`, `getattr`, `read` and
`readdir`.

The modules follow the program's layers:

- `Posix` (`posix.dfy`) holds the libc side:
  - fixed-width integers and Rust's `as` casts, written out as wrap-around;
  - `ENOENT`;
  - the seven POSIX.1 `<sys/stat.h>` file-type constants, at their usual octal values;
  - the `stat` record. The adapter reads `st_birthtime` and `st_flags`, which Apple's and FreeBSD's `struct stat` both have. The model fixes Apple's field widths (`nlink: u16`, `rdev: i32`). Under FreeBSD 12 and later, `nlink_t` and `dev_t` are 64-bit, so `st_nlink as u32` and `st_rdev as u32` would truncate there; that platform is not modelled.
- `Fuse` (`fuse.dfy`) holds the protocol's values:
  - file types, timestamps, durations, the attribute record and directory entries;
  - the number of bytes a directory entry takes in a reply buffer.
- `Attr` (`attr.dfy`) is the attribute translator.
- `Reply` (`reply.dfy`) holds the reply objects the handlers answer through. Each is a class that records the calls made on it. The library consumes a reply with its final call, so every final call requires that no earlier call was made. `ReplyDirectory` is a buffer of fixed byte capacity. It holds the entries added so far and logs every `add`, `ok` and `error`.
- `Paging` (`paging.dfy`) states, as functions, what one `readdir` call puts into the buffer and what successive calls that resume from the last cookie deliver together. Its lemmas prove:
  - the page is a contiguous run of the listing;
  - every entry carries the index of the next row as its cookie;
  - the page stops at the first row the buffer rejects;
  - resuming neither repeats nor skips a row.
- `SwatchFs` (`swatchfs.dfy`) holds the adapter itself. The backing directory is an oracle: for each name it answers with a `stat` record, "not found" or another I/O error. The class `SwatchFS` has the four handlers. The `readdir` loop is proved against the `Paging` functions.

The adapter's intended design has an identity table and byte-range reads.
Where that design and the code disagree, the model follows the code:

- There is no identity table. `lookup` answers with the backing inode number `st_ino`.
- `readdir` lists `hello.txt` as inode 2. So these two agree only when the backing inode is 2 (`HelloScenario`).
- `getattr` answers only inode 1.
- `read` returns no data. For inode 2 it sends no reply at all, because its body is commented out.

## Model

| member | source | states |
|---|---|---|
| Posix.AsU32 | src/main.rs:28 | `x as u32`: values in range are kept; a negative 32-bit value wraps to `x + 2^32` |
| Posix.AsU64 | src/main.rs:29-30 | `x as u64`: values in range are kept; a negative 64-bit value wraps to `x + 2^64` |
| Attr.TypeBits | src/main.rs:37-44 | each of the seven tags maps to a known type constant, and that constant has no bits outside `S_IFMT` |
| Attr.KindOf | src/main.rs:37-45 | for a known type pattern, the tag is the one whose constant is that pattern, and no other tag maps to it; an unknown pattern (the panic) is excluded by the precondition |
| Attr.KindOfInjective | src/main.rs:37-44 | two known patterns get the same tag exactly when they are equal |
| Attr.KindOfTypeBits | src/main.rs:37-44 | a tag survives the trip to its constant and back |
| Attr.MetaIntoFileAttr | src/main.rs:19-48 | the kind's constant is `st_mode & S_IFMT`, `perm & S_IFMT == 0`, and the kind's constant OR `perm` is `st_mode` again; ino, uid, gid and flags are copied; nlink is widened; size, blocks, blksize and rdev go through the `as` casts; the four timestamps are passed through, with `crtime` taken from `st_birthtime` |
| Attr.CountersPreserved | src/main.rs:28-36 | size, blocks, blksize and rdev arrive unchanged when non-negative; a negative size or rdev wraps around |
| Fuse.Align8 | src/main.rs:115 | rounding a name length up to a multiple of 8 gives at least the length and less than the length plus 8 |
| Fuse.Align8Formula | src/main.rs:115 | the rounding equals `(n + 7) / 8 * 8` and is a multiple of 8 |
| Fuse.EntrySize | src/main.rs:115 | an entry takes its 24-byte header plus its name, padded by fewer than 8 bytes |
| Fuse.EntrySizeFormula | src/main.rs:115 | an entry takes `(24 + namelen + 7) / 8 * 8` bytes, a multiple of 8 |
| Reply.ReplyEntry.Entry | src/main.rs:58 | the one reply sent is the entry with its TTL, attributes and generation |
| Reply.ReplyEntry.Error | src/main.rs:55 | the one reply sent is the error code |
| Reply.ReplyAttr.Attr | src/main.rs:67-70 | the one reply sent is the attributes with their TTL |
| Reply.ReplyAttr.Error | src/main.rs:72 | the one reply sent is the error code |
| Reply.ReplyData.Error | src/main.rs:90 | the one reply sent is the error code |
| Reply.ReplyDirectory.Add | src/main.rs:115 | `add` returns "full" exactly when the entry's bytes do not fit in what is left; it buffers the entry only when it fits, keeps the byte count equal to the bytes of the buffered entries and within capacity, and logs the call with its result |
| Reply.ReplyDirectory.Ok | src/main.rs:119 | `ok` finishes the reply and leaves the buffer as it was |
| Reply.ReplyDirectory.Error | src/main.rs:103 | `error` finishes the reply and leaves the buffer as it was |
| Paging.Tag | src/main.rs:113-115 | the cookie of row `i`, read back through `offset as usize`, is `i + 1`, the index of the row that follows |
| Paging.AddsAt | src/main.rs:115 | the `k`th accepted `add` of a page is the one of its `k`th entry |
| Paging.PageIsRun | src/main.rs:113-117 | a page is the contiguous run of rows from the resume index, each with its cookie; it is empty past the end of the listing, and it fits in the buffer |
| Paging.PageCallsForm | src/main.rs:113-117 | the calls are one accepted `add` per page entry, then one rejected `add` of the next row unless the listing ran out; nothing is added after a rejection |
| Paging.PageStopsAtRejection | src/main.rs:115-116 | the row after the page, if there is one, did not fit in what the page left free |
| Paging.LastCookie | src/main.rs:113-115 | the last cookie of a non-empty page, read back as a skip count, is the index of the row right after the page |
| Paging.ResumeFromLastCookie | src/main.rs:113-115 | a page followed by the page that resumes from its last cookie is a contiguous run of the listing: no row repeated, none skipped |
| Paging.DrainIsRun | src/main.rs:113-119 | all pages from a resume index, each resumed from the previous last cookie, make a contiguous run of the listing, with any buffer size |
| Paging.DrainComplete | src/main.rs:113-119 | when every row fits in an empty buffer, paging delivers every remaining row |
| Paging.DrainFromStart | src/main.rs:107-119 | paging from offset 0 with a buffer that holds any one row yields the reference listing `Listing` (every row with its cookie `i + 1`, in order), each row once |
| SwatchFs.Skip | src/main.rs:113 | `offset as usize`: a non-negative offset skips that many rows; a negative one wraps to a skip of at least 2^63 rows |
| SwatchFs.SwatchFS.Lookup | src/main.rs:51-62 | not found gives `ENOENT`; another I/O error sends no reply; `hello.txt` under inode 1 gives the entry with TTL, the translated attributes and generation 0; any other found name gives `ENOENT`; at most one reply is sent, and an entry reply carries the backing inode number |
| SwatchFs.SwatchFS.GetAttr | src/main.rs:64-74 | inode 1 gets TTL and the translated attributes of the backing directory itself; every other inode gets `ENOENT`; exactly one reply is sent |
| SwatchFs.SwatchFS.Read | src/main.rs:76-92 | inode 2 gets no reply at all; every other inode gets `ENOENT` |
| SwatchFs.SwatchFS.AddRows | src/main.rs:113-119 | the loop makes exactly the calls of the page from the skipped index and then `ok`; the buffer gains exactly that page |
| SwatchFs.SwatchFS.ReadDir | src/main.rs:94-120 | any inode but 1 gets `ENOENT`, and the buffer is unchanged; for inode 1 the calls are the page of the fixed listing from `offset`, then `ok`, and the buffer gains exactly that page; an offset that is negative or at least 3 adds nothing and only sends `ok` |
| SwatchFs.RootListing | src/main.rs:107-111 | paging the root from offset 0 with a buffer that holds `hello.txt` yields `.` and `..` as inode 1 and `hello.txt` as inode 2, with cookies 1, 2 and 3 |
| SwatchFs.HelloScenario | src/main.rs:110 | with `hello.txt` backed by inode `st_ino`, `lookup` reports `st_ino` while a full root listing reports inode 2 |

## Left out

- `main` (src/main.rs:123-178) is left out: argument parsing, opening the backing directory, mounting, spawning the child command and waiting on it are I/O and process plumbing.
- The chrono conversion of timestamps (src/main.rs:23-26) is not modelled. A timestamp is kept as its epoch seconds. The panic on an out-of-range timestamp is not modelled either.
- The `openat` calls `metadata` and `self_metadata` are syscalls. The model replaces them with an oracle answer per name. `SwatchFs.Dir.Metadata` defines that oracle: a name the backing directory does not hold is "not found", and any other name gets the directory's answer.
- A backing-directory panic (`self_metadata().unwrap()` on an error) is a precondition of `GetAttr` (`GetAttrWellDefined`). So is an unknown file type in a translated record (`Translatable`, `LookupWellDefined`). The model does not reach those panics.
- Names are modelled as `string`. A name that is not valid UTF-8 makes `name.to_str()` return `None`. When `metadata(name)` succeeded, that leads to the `ENOENT` branch (src/main.rs:57-60); when it failed, the error branches answer first. Such a name cannot be written in this model.
- The fuser library is not part of this model. Its rule for entry bytes (a 24-byte header, the name, and padding to 8 bytes) is modelled as `EntrySize`. `EntrySize` counts the name in characters, while the library counts its bytes. The two agree for the three ASCII names `ReadDir` lists, but not for a non-ASCII name in the generic `AddRows` and `Paging` results. Its wire encoding of replies is not modelled. Nor is the error fuser sends when a handler drops a reply without answering, as `read` does for inode 2 and `lookup` does on a non-"not found" error: the model records only that no reply call was made.
- The `println!` in `getattr` (src/main.rs:65) is output only and is left out.
- The handlers' unused parameters are dropped from the signatures: the request, file handles, read offset, size, flags and lock owner.
- Concurrency and the mount lifecycle are left out.
- The `readdir` loop is modelled as a separate method, `AddRows`, over its listing. `ReadDir` calls it with the fixed three-row listing. Its cookie cast `(i + 1) as i64` is exact because the listing is shorter than 2^63 rows (`Indexable`).

