/**
 * What sequences of `FS` operations do, stated for every state that keeps
 * `FileSystem.Inv`: the behaviour the unit tests of
 * db/src/file_system/mod.rs exercise (double open, double close, remove
 * and recreate, read after write) and what the cache does to written data
 * on close and on eviction.
 */
module FileSystemProperties {
  import opened Common
  import opened Storage
  import opened BufferCache
  import opened FileSystem
  import opened PageLayout

  /** `test_create_failure`: creating a name a second time fails with
      `AlreadyExists` and changes nothing, whether or not the OS would fail. */
  lemma CreateTwiceFails(g: Geometry, st: State, name: string, io1: bool, io2: bool)
    requires Inv(g, st)
    ensures
      var c1 := CreateStep(g, st, name, io1);
      c1.out.Ok? ==> CreateStep(g, c1.st, name, io2) == Step(Err(AlreadyExists), c1.st)
  {
  }

  /** `test_double_opening`: while a name is open, opening it again fails
      with `InvalidArgument` and changes nothing. */
  lemma OpenTwiceFails(g: Geometry, st: State, name: string, fd1: Fd, fd2: Fd, io1: bool, io2: bool)
    requires Inv(g, st) && fd1 !in st.disk.fds && fd2 !in st.disk.fds && fd1 != fd2
    ensures
      var o1 := OpenStep(g, st, name, fd1, io1);
      o1.out.Ok? ==> OpenStep(g, o1.st, name, fd2, io2) == Step(Err(InvalidArgument), o1.st)
  {
  }

  /** `test_double_closing`: after any close of `fd` (successful, failed or
      refused), closing `fd` again is refused with `InvalidArgument`. */
  lemma CloseTwiceFails(g: Geometry, st: State, fd: Fd, io1: bool, io2: bool)
    requires Inv(g, st)
    ensures
      var x1 := CloseStep(g, st, fd, io1);
      CloseStep(g, x1.st, fd, io2) == Step(Err(InvalidArgument), x1.st)
  {
  }

  /**
   * `test_create_open_close_remove_recreate`, first half: removing an open
   * file leaves its descriptor open on the OS but untracked, so closing it
   * through `close_file` is refused and it is never released.
   */
  lemma RemoveOpenOrphansHandle(g: Geometry, st: State, name: string, io1: bool, io2: bool)
    requires Inv(g, st) && name in st.name2raw && st.name2raw[name].Some?
    ensures
      var fd := st.name2raw[name].value;
      var r := RemoveStep(g, st, name, io1);
      !r.out.Panic? ==>
        && fd in r.st.disk.fds
        && CloseStep(g, r.st, fd, io2) == Step(Err(InvalidArgument), r.st)
  {
  }

  /** `test_create_open_close_remove_recreate`, second half: once a name is
      removed it can be created again. */
  lemma RemoveThenRecreate(g: Geometry, st: State, name: string, io: bool)
    requires Inv(g, st)
    ensures
      var r := RemoveStep(g, st, name, false);
      r.out.Ok? ==> CreateStep(g, r.st, name, io).out == (if io then Err(Io) else Ok(()))
  {
  }

  /**
   * `test_read_write_page` (and the older file's `test_write_read_page`): a
   * successful `write_page` leaves the page resident, so the next
   * `read_page` of it is a hit that returns exactly the written bytes,
   * whatever buffer it is given and whether or not the OS would fail, and
   * changes nothing.
   */
  lemma {:induction false} ReadYourWrite(g: Geometry, st: State, fd: Fd, page: nat, b: seq<byte>, io1: bool, buf: seq<byte>, io2: bool)
    requires Inv(g, st) && |b| == g.pageSize && |buf| == g.pageSize
    ensures
      var w := WriteStep(g, st, fd, page, b, io1);
      w.out.Ok? ==> ReadStep(g, w.st, fd, page, buf, io2) == PageRead(Ok(g.pageSize), b, w.st)
  {
    var w := WriteStep(g, st, fd, page, b, io1);
    if w.out.Ok? {
      var r := ReadStep(g, w.st, fd, page, buf, io2);
      assert Resident(w.st.slots, Tag(fd, page));
      assert r.bytes == b && r.st == w.st;
    }
  }

  /** A descriptor that was just opened has no resident page, so its first
      read of any page goes to the disk. */
  lemma {:induction false} FirstReadAfterOpenMisses(g: Geometry, st: State, name: string, fd: Fd, page: nat, buf: seq<byte>)
    requires Inv(g, st) && fd !in st.disk.fds && |buf| == g.pageSize
    ensures
      var o := OpenStep(g, st, name, fd, false);
      o.out.Ok? ==>
        ReadStep(g, o.st, fd, page, buf, false).bytes == ReadAt(o.st.disk.Content(fd), g.Offset(page), buf)
  {
    var o := OpenStep(g, st, name, fd, false);
    if o.out.Ok? {
      assert !Resident(o.st.slots, Tag(fd, page));
      assert fd in o.st.disk.fds;
    }
  }

  /**
   * In the current version a write that hits the cache never reaches the
   * disk: the page is only marked dirty, and closing the handle drops it,
   * so the disk after the close is the disk before the write with the
   * descriptor released.
   */
  lemma {:induction false} HitWriteLostOnClose(g: Geometry, st: State, fd: Fd, page: nat, b: seq<byte>, io1: bool, io2: bool)
    requires Inv(g, st) && g.version == Current && |b| == g.pageSize
    requires fd in st.raw2name && Resident(st.slots, Tag(fd, page))
    ensures
      var w := WriteStep(g, st, fd, page, b, io1);
      var x := CloseStep(g, w.st, fd, io2);
      && w.out == Ok(g.pageSize)
      && x.out == (if io2 then Err(Io) else Ok(()))
      && x.st.disk == st.disk.Close(fd)
  {
    var w := WriteStep(g, st, fd, page, b, io1);
    assert w.st.disk == st.disk;
    assert !LeaveCachePanics(g, w.st.slots, fd);
  }

  /**
   * In the older copy a dirty page of a handle makes closing it panic: a
   * write that hits the cache dirties the page, and `_file_leave_cache`
   * then reaches that slot and its write-back clashes with the live borrows.
   */
  lemma {:induction false} LegacyCloseAfterHitWritePanics(g: Geometry, st: State, fd: Fd, page: nat, b: seq<byte>, io1: bool, io2: bool)
    requires Inv(g, st) && g.version == Legacy && |b| == g.pageSize
    requires fd in st.raw2name && Resident(st.slots, Tag(fd, page))
    ensures
      var w := WriteStep(g, st, fd, page, b, io1);
      && w.out == Ok(g.pageSize)
      && CloseStep(g, w.st, fd, io2).out == Panic
  {
    var t := Tag(fd, page);
    var k := Index(g, fd, page);
    ResidentAtIndex(g, st.slots, t);
    var w := WriteStep(g, st, fd, page, b, io1);
    assert w.st.slots == Updated(g, st.slots, t, b);
    assert Owned(g, w.st.slots, fd, k) && w.st.slots[k].dirty;
  }

  /**
   * A dirty page cannot be evicted: write page `page` of an open file (a
   * miss that installs it), write it again (a hit that dirties it), then
   * write page `page + BlockSize()` of the same handle, which maps to the
   * same slot: that write reaches the disk and then panics.
   */
  lemma {:induction false} DirtyEvictionPanics(g: Geometry, st: State, fd: Fd, page: nat, b1: seq<byte>, b2: seq<byte>, b3: seq<byte>, io2: bool)
    requires Inv(g, st) && fd in st.disk.fds && !st.slots[Index(g, fd, page)].valid
    requires |b1| == g.pageSize && |b2| == g.pageSize && |b3| == g.pageSize
    ensures
      var w1 := WriteStep(g, st, fd, page, b1, false);
      var w2 := WriteStep(g, w1.st, fd, page, b2, io2);
      var w3 := WriteStep(g, w2.st, fd, page + g.BlockSize(), b3, false);
      && w1.out == Ok(g.pageSize) && w2.out == Ok(g.pageSize)
      && w3.out == Panic
  {
    UpdatedSlotBlocksNeighbour(g, st.slots, fd, page, b1, b2);
    var w1 := WriteStep(g, st, fd, page, b1, false);
    assert w1.st.slots == Install(g, st.slots, Tag(fd, page), b1);
  }

  /** Every page of `pages` holds `pageSize` bytes. */
  ghost predicate PageSized(g: Geometry, pages: seq<seq<byte>>)
  {
    forall k | 0 <= k < |pages| :: |pages[k]| == g.pageSize
  }

  /**
   * The write loop of `test_100pages_write_read`: `write_page(fd, k, pages[k])`
   * for `k` in order, with every OS call succeeding, stopping at the first
   * call that does not return `Ok` (the test unwraps each one).
   */
  ghost function WritePages(g: Geometry, st: State, fd: Fd, pages: seq<seq<byte>>): (r: Step<()>)
    requires Inv(g, st) && PageSized(g, pages)
    ensures Inv(g, r.st)
    decreases |pages|
  {
    if |pages| == 0 then Step(Ok(()), st)
    else
      var n := |pages| - 1;
      var prev := WritePages(g, st, fd, pages[..n]);
      if !prev.out.Ok? then prev
      else
        var w := WriteStep(g, prev.st, fd, n, pages[n], false);
        match w.out
        case Ok(_) => Step(Ok(()), w.st)
        case Err(kind) => Step(Err(kind), w.st)
        case Panic => Step(Panic, w.st)
  }

  /** What the read loop leaves: how it ended, the caller's buffer after each successful read, and the state. */
  datatype PageReads = PageReads(out: Outcome<()>, bytes: seq<seq<byte>>, st: State)

  /**
   * The read loop of `test_100pages_write_read`: `read_page(fd, k, buf)` for
   * `k` in `from .. n - 1`, reusing one buffer, with every OS call
   * succeeding, stopping at the first call that does not return `Ok`.
   */
  ghost function ReadPages(g: Geometry, st: State, fd: Fd, from: nat, n: nat, buf: seq<byte>): (r: PageReads)
    requires Inv(g, st) && |buf| == g.pageSize
    ensures Inv(g, r.st)
    decreases n - from
  {
    if n <= from then PageReads(Ok(()), [], st)
    else
      var r := ReadStep(g, st, fd, from, buf, false);
      match r.out
      case Ok(_) =>
        var rest := ReadPages(g, r.st, fd, from + 1, n, r.bytes);
        PageReads(rest.out, [r.bytes] + rest.bytes, rest.st)
      case Err(kind) => PageReads(Err(kind), [], r.st)
      case Panic => PageReads(Panic, [], r.st)
  }

  /** One write that misses over a clean cache: it reaches the disk, does not panic and keeps the cache clean. */
  lemma WriteMissWritesThrough(g: Geometry, st: State, fd: Fd, page: nat, b: seq<byte>)
    requires Inv(g, st) && |b| == g.pageSize && Clean(st.slots)
    requires fd in st.disk.fds && !Resident(st.slots, Tag(fd, page))
    ensures
      var w := WriteStep(g, st, fd, page, b, false);
      && w.out.Ok? && Clean(w.st.slots)
      && w.st.disk == st.disk.Write(fd, g.Offset(page), b)
      && forall u: Tag | Resident(w.st.slots, u) :: Resident(st.slots, u) || u == Tag(fd, page)
  {
    CleanNeverPanics(g, st.slots, Tag(fd, page), b, fd, 0);
  }

  /** One read that misses over a clean cache: it returns the disk's bytes, does not panic and keeps the cache clean. */
  lemma ReadMissReadsDisk(g: Geometry, st: State, fd: Fd, page: nat, buf: seq<byte>)
    requires Inv(g, st) && |buf| == g.pageSize && Clean(st.slots)
    requires fd in st.disk.fds && !Resident(st.slots, Tag(fd, page))
    ensures
      var r := ReadStep(g, st, fd, page, buf, false);
      && r.out.Ok? && Clean(r.st.slots) && r.st.disk == st.disk
      && r.bytes == ReadAt(st.disk.Content(fd), g.Offset(page), buf)
      && forall u: Tag | Resident(r.st.slots, u) :: Resident(st.slots, u) || u == Tag(fd, page)
  {
    CleanNeverPanics(g, st.slots, Tag(fd, page), ReadAt(st.disk.Content(fd), g.Offset(page), buf), fd, 0);
  }

  /**
   * Closing a handle over a clean cache never panics, and opening the same
   * file again under a new handle sees the bytes the old handle saw, with
   * no page of the new handle resident and the cache still clean.
   */
  lemma CleanCloseThenReopen(g: Geometry, st: State, name: string, fd1: Fd, fd2: Fd)
    requires Inv(g, st) && Clean(st.slots)
    requires fd1 in st.raw2name && st.raw2name[fd1] == name
    requires fd1 in st.disk.fds && name in st.disk.dir && st.disk.dir[name] == st.disk.fds[fd1]
    ensures
      var x := CloseStep(g, st, fd1, false);
      && x.out == Ok(()) && Clean(x.st.slots)
      && (fd2 !in x.st.disk.fds ==>
            var o := OpenStep(g, x.st, name, fd2, false);
            && o.out == Ok(fd2) && Clean(o.st.slots)
            && fd2 in o.st.disk.fds && o.st.disk.Content(fd2) == st.disk.Content(fd1)
            && forall p: nat :: !Resident(o.st.slots, Tag(fd2, p)))
  {
    CleanNeverPanics(g, st.slots, Tag(fd1, 0), Zeros(g.pageSize), fd1, 0);
    var x := CloseStep(g, st, fd1, false);
    assert x.st.disk.dir == st.disk.dir && x.st.disk.inodes == st.disk.inodes;
  }

  /**
   * Writing pages in order on a handle that has no resident page, over a
   * cache with no dirty slot: every write misses, so none panics, each
   * reaches the file at `g.Offset(k)`, and the cache stays clean.
   */
  lemma {:induction false} WritePagesWriteThrough(g: Geometry, st: State, fd: Fd, pages: seq<seq<byte>>)
    requires Inv(g, st) && PageSized(g, pages) && Clean(st.slots)
    requires fd in st.disk.fds && forall p: nat :: !Resident(st.slots, Tag(fd, p))
    ensures
      var r := WritePages(g, st, fd, pages);
      && r.out == Ok(())
      && Clean(r.st.slots)
      && r.st.name2raw == st.name2raw && r.st.raw2name == st.raw2name
      && r.st.disk.dir == st.disk.dir && r.st.disk.fds == st.disk.fds
      && r.st.disk.Content(fd) == WriteSequential(g, st.disk.Content(fd), pages)
      && forall p: nat | p >= |pages| :: !Resident(r.st.slots, Tag(fd, p))
    decreases |pages|
  {
    if |pages| > 0 {
      var n := |pages| - 1;
      WritePagesWriteThrough(g, st, fd, pages[..n]);
      var prev := WritePages(g, st, fd, pages[..n]);
      WriteMissWritesThrough(g, prev.st, fd, n, pages[n]);
      var w := WriteStep(g, prev.st, fd, n, pages[n], false);
      assert WritePages(g, st, fd, pages) == Step(Ok(()), w.st);
      WriteSequentialNext(g, st.disk.Content(fd), pages, prev.st.disk.Content(fd), w.st.disk.Content(fd));
    }
  }

  /**
   * Reading pages `from .. n - 1` in order on a handle none of whose pages
   * from `from` on is resident, over a cache with no dirty slot: every read
   * misses, so none panics, the disk is untouched, the cache stays clean and
   * the buffers read are the chain of reads of the file itself.
   */
  lemma {:induction false} ReadPagesFromDisk(g: Geometry, st: State, fd: Fd, from: nat, n: nat, buf: seq<byte>)
    requires Inv(g, st) && |buf| == g.pageSize && Clean(st.slots)
    requires fd in st.disk.fds && forall p: nat | p >= from :: !Resident(st.slots, Tag(fd, p))
    ensures
      var r := ReadPages(g, st, fd, from, n, buf);
      && r.out == Ok(())
      && Clean(r.st.slots)
      && r.st.disk == st.disk
      && r.bytes == ReadChain(g, st.disk.Content(fd), from, n, buf)
    decreases n - from
  {
    if n > from {
      ReadMissReadsDisk(g, st, fd, from, buf);
      var r := ReadStep(g, st, fd, from, buf, false);
      ReadPagesFromDisk(g, r.st, fd, from + 1, n, r.bytes);
    }
  }

  /**
   * `test_100pages_write_read` in the current version, for any number of
   * pages and any closed file over a cache with no dirty slot: open the
   * file, write the pages in order, close it, open it again and read the
   * pages in order. Every call succeeds and the reads return exactly the
   * pages written.
   */
  lemma {:induction false} WriteCloseReopenReadBack(g: Geometry, st: State, name: string, fd1: Fd, fd2: Fd, pages: seq<seq<byte>>, buf: seq<byte>)
    requires Inv(g, st) && g.version == Current && Clean(st.slots) && PageSized(g, pages) && |buf| == g.pageSize
    requires name in st.name2raw && st.name2raw[name].None? && fd1 !in st.disk.fds
    ensures
      var o1 := OpenStep(g, st, name, fd1, false);
      var w := WritePages(g, o1.st, fd1, pages);
      var x := CloseStep(g, w.st, fd1, false);
      && o1.out == Ok(fd1) && w.out == Ok(()) && x.out == Ok(())
      && (fd2 !in x.st.disk.fds ==>
            var o2 := OpenStep(g, x.st, name, fd2, false);
            var r := ReadPages(g, o2.st, fd2, 0, |pages|, buf);
            o2.out == Ok(fd2) && r.out == Ok(()) && r.bytes == pages)
  {
    var o1 := OpenStep(g, st, name, fd1, false);
    WritePagesWriteThrough(g, o1.st, fd1, pages);
    var w := WritePages(g, o1.st, fd1, pages);
    CleanCloseThenReopen(g, w.st, name, fd1, fd2);
    var x := CloseStep(g, w.st, fd1, false);
    if fd2 !in x.st.disk.fds {
      var o2 := OpenStep(g, x.st, name, fd2, false);
      ReadPagesFromDisk(g, o2.st, fd2, 0, |pages|, buf);
      ReadChainReturnsPages(g, o1.st.disk.Content(fd1), pages, buf);
    }
  }
}
