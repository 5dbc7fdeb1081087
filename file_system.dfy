/**
 * `FS` of db/src/file_system/mod.rs (and of its older copy in
 * db/src/file_system.rs, selected by the geometry's version): the name and
 * handle directory (`name2raw`, `raw2name`), the page cache, and page I/O
 * that consults the cache before the raw storage.
 *
 * The first half states every operation as a function from one `State` to
 * the next; the class `FS` then implements the operations on its fields and
 * the cache's arrays and is proved to follow those functions.
 *
 * The operating system is the `disk` part of the state. Whether an OS call
 * fails is the parameter `ioFails`, and the descriptor `open` hands out is
 * the parameter `osFd`, which the OS guarantees is not already open.
 */
module FileSystem {
  import opened Common
  import opened Storage
  import opened BufferCache

  datatype Option<T> = None | Some(value: T)

  /** `AlreadyExists` and `NotFound` are the `io::Error` kinds of `create_file`
      and `remove_file`; `InvalidArgument` is nix's error for `open_file` and
      `close_file`; `Io` is any failure of the OS itself. */
  datatype ErrorKind = AlreadyExists | NotFound | InvalidArgument | Io

  /** What a call does: returns a value, returns an error, or panics. */
  datatype Outcome<T> = Ok(value: T) | Err(kind: ErrorKind) | Panic

  /** The directory invariant: a name maps to `Some(f)` exactly when `f` maps back to that name. */
  ghost predicate Consistent(name2raw: map<string, Option<Fd>>, raw2name: map<Fd, string>)
  {
    && (forall n | n in name2raw && name2raw[n].Some? ::
          name2raw[n].value in raw2name && raw2name[name2raw[n].value] == n)
    && (forall f | f in raw2name :: raw2name[f] in name2raw && name2raw[raw2name[f]] == Some(f))
  }

  /** Everything an `FS` and the OS behind it hold: the two maps, the OS state and the cache slots. */
  datatype State = State(name2raw: map<string, Option<Fd>>, raw2name: map<Fd, string>, disk: Disk, slots: seq<Slot>)

  /**
   * The cache keeps its invariant; the directory is consistent; every
   * tracked name exists on disk and every tracked handle is open; and every
   * resident page belongs to an open descriptor, so a descriptor number the
   * OS hands out again never finds pages of the file it named before.
   */
  ghost predicate Inv(g: Geometry, st: State)
  {
    && Indexed(g, st.slots)
    && st.disk.Valid()
    && Consistent(st.name2raw, st.raw2name)
    && st.name2raw.Keys <= st.disk.dir.Keys
    && st.raw2name.Keys <= st.disk.fds.Keys
    && (forall t | Resident(st.slots, t) :: t.fd in st.disk.fds)
  }

  /** The outcome of an operation and the state after it. */
  datatype Step<T> = Step(out: Outcome<T>, st: State)

  /** The outcome of `read_page`, the caller's buffer after it, and the state after it. */
  datatype PageRead = PageRead(out: Outcome<nat>, bytes: seq<byte>, st: State)

  /** The outcome of a cache-internal step and the slots after it. */
  datatype CacheStep = CacheStep(out: Outcome<()>, slots: seq<Slot>)

  /** `FS::new` over the OS state `disk`: no names, no handles, every slot invalid and clean. */
  ghost function Initial(g: Geometry, disk: Disk): (st: State)
    requires g.WellFormed() && disk.Valid()
    ensures Inv(g, st) && Clean(st.slots)
    ensures forall t :: !Resident(st.slots, t)
  {
    State(map[], map[], disk, seq(g.bufSize, _ => Slot(Zeros(g.pageSize), false, false, Tag(0, 0))))
  }

  /**
   * The slot at which the older `_file_leave_cache(fd)` panics when it
   * scans from `j`: the first slot of `fd`'s block that `fd` owns and that
   * is dirty, or the end of the block if there is none.
   */
  ghost function PanicSlot(g: Geometry, s: seq<Slot>, fd: Fd, j: nat): (k: nat)
    requires Indexed(g, s) && BlockStart(g, fd) <= j <= BlockStart(g, fd) + g.BlockSize()
    decreases BlockStart(g, fd) + g.BlockSize() - j
    ensures j <= k <= BlockStart(g, fd) + g.BlockSize()
    ensures forall i | j <= i < k :: !(Owned(g, s, fd, i) && s[i].dirty)
    ensures k < BlockStart(g, fd) + g.BlockSize() ==> Owned(g, s, fd, k) && s[k].dirty
  {
    if j == BlockStart(g, fd) + g.BlockSize() then j
    else if Owned(g, s, fd, j) && s[j].dirty then j
    else PanicSlot(g, s, fd, j + 1)
  }

  /**
   * `_file_leave_cache(fd)`: every slot of `fd`'s block that `fd` owns is
   * invalidated, and afterwards no page of `fd` is resident while every
   * other page keeps its residency and bytes. The older copy panics at the
   * first such slot that is dirty, with the slots before it already dropped.
   */
  ghost function LeaveStep(g: Geometry, s: seq<Slot>, fd: Fd): (r: CacheStep)
    requires Indexed(g, s)
    ensures Indexed(g, r.slots)
    ensures r.out == Ok(()) || r.out == Panic
    ensures r.out.Panic? <==> LeaveCachePanics(g, s, fd)
    ensures r.out.Ok? ==> forall u: Tag :: Resident(r.slots, u) <==> Resident(s, u) && u.fd != fd
    ensures forall u: Tag | Resident(r.slots, u) :: Resident(s, u) && Content(r.slots, u) == Content(s, u)
    ensures forall i | 0 <= i < |s| :: r.slots[i] == s[i].(valid := r.slots[i].valid) && (r.slots[i].valid ==> s[i].valid)
  {
    var k := PanicSlot(g, s, fd, BlockStart(g, fd));
    if g.version == Legacy && k < BlockStart(g, fd) + g.BlockSize() then
      EvictedBelowShrinks(g, s, fd, k);
      CacheStep(Panic, EvictedBelow(g, s, fd, k))
    else
      EvictedDropsHandle(g, s, fd);
      CacheStep(Ok(()), Evicted(g, s, fd))
  }

  /**
   * `_create_buf(fd, page, b)`: `b` becomes page `t`'s bytes and every other
   * page keeps its residency and bytes unless it shared `t`'s slot; it
   * panics, changing nothing, when that slot holds a dirty page.
   */
  ghost function CreateBufStep(g: Geometry, s: seq<Slot>, t: Tag, b: seq<byte>): (r: CacheStep)
    requires Indexed(g, s) && |b| == g.pageSize
    ensures Indexed(g, r.slots)
    ensures r.out == Ok(()) || r.out == Panic
    ensures r.out.Panic? <==> InstallPanics(g, s, t)
    ensures r.out.Panic? ==> r.slots == s
    ensures r.out.Ok? ==> Resident(r.slots, t) && Content(r.slots, t) == b
    ensures r.out.Ok? ==> forall u: Tag | u != t ::
      Resident(r.slots, u) <==> Resident(s, u) && Index(g, u.fd, u.page) != Index(g, t.fd, t.page)
    ensures forall u: Tag | u != t && Resident(r.slots, u) :: Content(r.slots, u) == Content(s, u)
    ensures forall i | 0 <= i < |s| && i != Index(g, t.fd, t.page) :: r.slots[i] == s[i]
    ensures r.out.Ok? ==> !r.slots[Index(g, t.fd, t.page)].dirty
  {
    if InstallPanics(g, s, t) then CacheStep(Panic, s)
    else
      InstallResidency(g, s, t, b);
      CacheStep(Ok(()), Install(g, s, t, b))
  }

  /** `create_file`: a tracked name is refused; otherwise the OS creates (or
      truncates) the file and the name is tracked, closed. */
  ghost function CreateStep(g: Geometry, st: State, name: string, ioFails: bool): (r: Step<()>)
    requires Inv(g, st)
    ensures Inv(g, r.st)
    ensures r.st.raw2name == st.raw2name && r.st.slots == st.slots && r.st.disk.fds == st.disk.fds
    ensures r.out == if name in st.name2raw then Err(AlreadyExists) else if ioFails then Err(Io) else Ok(())
    ensures r.out.Ok? ==> r.st.name2raw == st.name2raw[name := None] && r.st.disk == st.disk.Create(name)
    ensures !r.out.Ok? ==> r.st == st
  {
    if name in st.name2raw then Step(Err(AlreadyExists), st)
    else if ioFails then Step(Err(Io), st)
    else Step(Ok(()), st.(disk := st.disk.Create(name), name2raw := st.name2raw[name := None]))
  }

  /**
   * `open_file`: an untracked name and a name that is already open are
   * refused; otherwise the OS opens the file as `osFd`, both maps record the
   * pair, and no page of `osFd` is resident, whatever file the number named before.
   */
  ghost function OpenStep(g: Geometry, st: State, name: string, osFd: Fd, ioFails: bool): (r: Step<Fd>)
    requires Inv(g, st) && osFd !in st.disk.fds
    ensures Inv(g, r.st) && r.st.slots == st.slots
    ensures r.out.Ok? <==> name in st.name2raw && st.name2raw[name].None? && !ioFails
    ensures r.out.Err? ==> r.out.kind == if name in st.name2raw && st.name2raw[name].None? then Io else InvalidArgument
    ensures !r.out.Ok? ==> r.st == st
    ensures r.out.Ok? ==>
      && r.out.value == osFd
      && r.st.name2raw == st.name2raw[name := Some(osFd)] && r.st.raw2name == st.raw2name[osFd := name]
      && r.st.disk == st.disk.Open(name, osFd)
      && forall p: nat :: !Resident(r.st.slots, Tag(osFd, p))
  {
    if name !in st.name2raw then Step(Err(InvalidArgument), st)
    else match st.name2raw[name]
      case Some(_) => Step(Err(InvalidArgument), st)
      case None =>
        if ioFails then Step(Err(Io), st)
        else Step(Ok(osFd), st.(disk := st.disk.Open(name, osFd),
                                name2raw := st.name2raw[name := Some(osFd)],
                                raw2name := st.raw2name[osFd := name]))
  }

  /**
   * `close_file`: an untracked handle is refused, so a second close fails;
   * otherwise the name reverts to closed and the handle is dropped before
   * the handle's pages leave the cache; then the OS releases the descriptor
   * (even when it reports an error) and no page of it is resident.
   */
  ghost function CloseStep(g: Geometry, st: State, fd: Fd, ioFails: bool): (r: Step<()>)
    requires Inv(g, st)
    ensures Inv(g, r.st) && r.st.disk.fds.Keys <= st.disk.fds.Keys
    ensures fd !in st.raw2name ==> r == Step(Err(InvalidArgument), st)
    ensures fd in st.raw2name ==>
      && r.st.name2raw == st.name2raw[st.raw2name[fd] := None]
      && r.st.raw2name == st.raw2name - {fd}
    ensures r.out.Panic? <==> fd in st.raw2name && LeaveCachePanics(g, st.slots, fd)
    ensures r.out.Panic? ==> r.st.disk == st.disk
    ensures fd in st.raw2name && !r.out.Panic? ==>
      && r.out == (if ioFails then Err(Io) else Ok(()))
      && r.st.disk == st.disk.Close(fd)
      && forall u: Tag :: Resident(r.st.slots, u) <==> Resident(st.slots, u) && u.fd != fd
    ensures fd in st.raw2name ==> r.st.slots == LeaveStep(g, st.slots, fd).slots
    ensures forall u: Tag | Resident(r.st.slots, u) :: Resident(st.slots, u) && Content(r.st.slots, u) == Content(st.slots, u)
  {
    if fd !in st.raw2name then Step(Err(InvalidArgument), st)
    else
      var name := st.raw2name[fd];
      var st1 := st.(name2raw := st.name2raw[name := None], raw2name := st.raw2name - {fd});
      var left := LeaveStep(g, st.slots, fd);
      if left.out.Panic? then Step(Panic, st1.(slots := left.slots))
      else Step(if ioFails then Err(Io) else Ok(()), st1.(slots := left.slots, disk := st.disk.Close(fd)))
  }

  /**
   * `remove_file`: an untracked name is refused. A closed file loses its
   * name. An open file's pages leave the cache and both entries go, but the
   * descriptor is not closed: it stays open on the OS while no longer
   * tracked. Then the OS unlinks the name.
   */
  ghost function RemoveStep(g: Geometry, st: State, name: string, ioFails: bool): (r: Step<()>)
    requires Inv(g, st)
    ensures Inv(g, r.st) && r.st.disk.fds == st.disk.fds
    ensures name !in st.name2raw ==> r == Step(Err(NotFound), st)
    ensures r.out.Panic? <==>
      name in st.name2raw && st.name2raw[name].Some? && LeaveCachePanics(g, st.slots, st.name2raw[name].value)
    ensures name in st.name2raw && !r.out.Panic? ==>
      && r.out == (if ioFails then Err(Io) else Ok(()))
      && r.st.name2raw == st.name2raw - {name}
      && r.st.disk == (if ioFails then st.disk else st.disk.Unlink(name))
    ensures name in st.name2raw && st.name2raw[name].Some? && !r.out.Panic? ==>
      var fd := st.name2raw[name].value;
      && r.st.raw2name == st.raw2name - {fd}
      && fd in r.st.disk.fds
      && forall u: Tag :: Resident(r.st.slots, u) <==> Resident(st.slots, u) && u.fd != fd
    ensures name in st.name2raw && st.name2raw[name].None? ==> r.st.raw2name == st.raw2name && r.st.slots == st.slots
    ensures name in st.name2raw && st.name2raw[name].Some? ==>
      r.st.slots == LeaveStep(g, st.slots, st.name2raw[name].value).slots
    ensures forall u: Tag | Resident(r.st.slots, u) :: Resident(st.slots, u) && Content(r.st.slots, u) == Content(st.slots, u)
  {
    if name !in st.name2raw then Step(Err(NotFound), st)
    else match st.name2raw[name]
      case None =>
        var st1 := st.(name2raw := st.name2raw - {name});
        if ioFails then Step(Err(Io), st1) else Step(Ok(()), st1.(disk := st.disk.Unlink(name)))
      case Some(fd) =>
        var left := LeaveStep(g, st.slots, fd);
        if left.out.Panic? then Step(Panic, st.(slots := left.slots))
        else
          var st1 := st.(slots := left.slots, raw2name := st.raw2name - {fd}, name2raw := st.name2raw - {name});
          if ioFails then Step(Err(Io), st1) else Step(Ok(()), st1.(disk := st.disk.Unlink(name)))
  }

  /**
   * `read_page`: a resident page is served from the cache and nothing
   * changes. On a miss the OS reads the page at `g.Offset(page)` into the
   * caller's buffer, which is then installed in the cache; a failed read
   * returns before the install and changes nothing.
   */
  ghost function ReadStep(g: Geometry, st: State, fd: Fd, page: nat, buf: seq<byte>, ioFails: bool): (r: PageRead)
    requires Inv(g, st) && |buf| == g.pageSize
    ensures Inv(g, r.st) && |r.bytes| == g.pageSize
    ensures r.st.disk == st.disk && r.st.name2raw == st.name2raw && r.st.raw2name == st.raw2name
    ensures Resident(st.slots, Tag(fd, page)) ==>
      r.out == Ok(g.pageSize) && r.bytes == Content(st.slots, Tag(fd, page)) && r.st == st
    ensures !Resident(st.slots, Tag(fd, page)) && (ioFails || fd !in st.disk.fds) ==>
      r.out == Err(Io) && r.bytes == buf && r.st == st
    ensures !Resident(st.slots, Tag(fd, page)) && !ioFails && fd in st.disk.fds ==>
      && r.bytes == ReadAt(st.disk.Content(fd), g.Offset(page), buf)
      && (r.out.Panic? <==> InstallPanics(g, st.slots, Tag(fd, page)))
    ensures r.out.Ok? ==> r.out.value == g.pageSize
    ensures r.out.Ok? ==> Resident(r.st.slots, Tag(fd, page)) && Content(r.st.slots, Tag(fd, page)) == r.bytes
    ensures forall u: Tag | u != Tag(fd, page) && Resident(r.st.slots, u) ::
      Resident(st.slots, u) && Content(r.st.slots, u) == Content(st.slots, u)
    ensures forall u: Tag | u != Tag(fd, page) && Resident(st.slots, u) && Index(g, u.fd, u.page) != Index(g, fd, page) ::
      Resident(r.st.slots, u)
    ensures r.out.Panic? ==> r.st.slots == st.slots
    ensures forall i | 0 <= i < |st.slots| && i != Index(g, fd, page) :: r.st.slots[i] == st.slots[i]
    ensures !Resident(st.slots, Tag(fd, page)) && r.out.Ok? ==> !r.st.slots[Index(g, fd, page)].dirty
  {
    var t := Tag(fd, page);
    if Resident(st.slots, t) then PageRead(Ok(g.pageSize), Content(st.slots, t), st)
    else if ioFails || fd !in st.disk.fds then PageRead(Err(Io), buf, st)
    else
      var bytes := ReadAt(st.disk.Content(fd), g.Offset(page), buf);
      var c := CreateBufStep(g, st.slots, t, bytes);
      PageRead(if c.out.Panic? then Panic else Ok(g.pageSize), bytes, st.(slots := c.slots))
  }

  /**
   * `write_page`: a resident page is only updated in the cache and marked
   * dirty; the disk is untouched. On a miss the OS writes the page at
   * `g.Offset(page)` and the bytes are then installed, clean; a failed write
   * returns before the install. Either way a successful write leaves the
   * page resident with the written bytes.
   */
  ghost function WriteStep(g: Geometry, st: State, fd: Fd, page: nat, b: seq<byte>, ioFails: bool): (r: Step<nat>)
    requires Inv(g, st) && |b| == g.pageSize
    ensures Inv(g, r.st)
    ensures r.st.name2raw == st.name2raw && r.st.raw2name == st.raw2name
    ensures Resident(st.slots, Tag(fd, page)) ==> r.out == Ok(g.pageSize) && r.st.disk == st.disk
    ensures !Resident(st.slots, Tag(fd, page)) && (ioFails || fd !in st.disk.fds) ==> r == Step(Err(Io), st)
    ensures !Resident(st.slots, Tag(fd, page)) && !ioFails && fd in st.disk.fds ==>
      && r.st.disk == st.disk.Write(fd, g.Offset(page), b)
      && (r.out.Panic? <==> InstallPanics(g, st.slots, Tag(fd, page)))
    ensures r.out.Ok? ==> r.out.value == g.pageSize
    ensures r.out.Ok? ==> Resident(r.st.slots, Tag(fd, page)) && Content(r.st.slots, Tag(fd, page)) == b
    ensures r.out.Ok? ==> forall u: Tag | u != Tag(fd, page) && Resident(r.st.slots, u) ::
      Resident(st.slots, u) && Content(r.st.slots, u) == Content(st.slots, u)
    ensures forall u: Tag | u != Tag(fd, page) && Resident(st.slots, u) && Index(g, u.fd, u.page) != Index(g, fd, page) ::
      Resident(r.st.slots, u)
    ensures r.out.Panic? ==> r.st.slots == st.slots
    ensures forall i | 0 <= i < |st.slots| && i != Index(g, fd, page) :: r.st.slots[i] == st.slots[i]
    ensures Resident(st.slots, Tag(fd, page)) ==> r.st.slots[Index(g, fd, page)].dirty
    ensures !Resident(st.slots, Tag(fd, page)) && r.out.Ok? ==> !r.st.slots[Index(g, fd, page)].dirty
  {
    var t := Tag(fd, page);
    if Resident(st.slots, t) then
      UpdateResidency(g, st.slots, t, b);
      Step(Ok(g.pageSize), st.(slots := Updated(g, st.slots, t, b)))
    else if ioFails || fd !in st.disk.fds then Step(Err(Io), st)
    else
      var disk := st.disk.Write(fd, g.Offset(page), b);
      var c := CreateBufStep(g, st.slots, t, b);
      Step(if c.out.Panic? then Panic else Ok(g.pageSize), st.(disk := disk, slots := c.slots))
  }

  class FS {
    const g: Geometry
    const bm: BufManager
    var name2raw: map<string, Option<Fd>>
    var raw2name: map<Fd, string>
    var disk: Disk

    /** The state this object and the OS are in. */
    ghost function Abs(): State
      requires bm.Shaped()
      reads this, bm.buf, bm.valid, bm.dirty, bm.dest
    {
      State(name2raw, raw2name, disk, bm.Slots())
    }

    ghost predicate Valid()
      reads this, bm.buf, bm.valid, bm.dirty, bm.dest
    {
      bm.g == g && bm.Valid() && Inv(g, Abs())
    }

    /** `FS::new`: empty directory and an empty cache over the OS state `disk`. */
    constructor (g: Geometry, disk: Disk)
      requires g.WellFormed() && disk.Valid()
      ensures Valid() && this.g == g && Abs() == Initial(g, disk)
      ensures fresh(bm) && fresh(bm.buf) && fresh(bm.valid) && fresh(bm.dirty) && fresh(bm.dest)
    {
      this.g := g;
      bm := new BufManager(g);
      name2raw := map[];
      raw2name := map[];
      this.disk := disk;
    }

    /**
     * `_file_leave_cache(fd)`: scans the block of slots handle `fd` addresses
     * and invalidates the valid slots it owns. The "write back" of a dirty
     * slot re-enters `write_page`, which finds the page resident and only
     * calls `update` with the slot's own bytes, so nothing reaches the disk.
     * In the older copy the arguments of that call still hold `Ref`s of the
     * cache, so `update`'s `borrow_mut` panics.
     */
    method FileLeaveCache(fd: Fd) returns (r: Outcome<()>)
      requires bm.g == g && bm.Valid()
      modifies bm.buf, bm.valid, bm.dirty
      ensures bm.Valid()
      ensures CacheStep(r, bm.Slots()) == LeaveStep(g, old(bm.Slots()), fd)
    {
      ghost var s0 := bm.Slots();
      var lo := BlockStart(g, fd);
      var hi := lo + Pow2(g.pageField);
      assert bm.Slots() == EvictedBelow(g, s0, fd, lo);
      for i := lo to hi
        invariant bm.Valid()
        invariant bm.Slots() == EvictedBelow(g, s0, fd, i)
        invariant g.version == Legacy ==> forall j | lo <= j < i :: !(Owned(g, s0, fd, j) && s0[j].dirty)
      {
        var panicked := LeaveSlot(fd, i, s0);
        if panicked {
          assert PanicSlot(g, s0, fd, lo) == i;
          return Panic;
        }
      }
      assert g.version == Legacy ==> PanicSlot(g, s0, fd, lo) == hi;
      return Ok(());
    }

    /** One iteration of the scan in `_file_leave_cache(fd)`: slot `i` of the block. */
    method LeaveSlot(fd: Fd, i: nat, ghost s0: seq<Slot>) returns (panicked: bool)
      requires bm.g == g && bm.Valid() && Indexed(g, s0)
      requires BlockStart(g, fd) <= i < BlockStart(g, fd) + g.BlockSize()
      requires bm.Slots() == EvictedBelow(g, s0, fd, i)
      modifies bm.buf, bm.valid, bm.dirty
      ensures bm.Valid()
      ensures panicked <==> g.version == Legacy && Owned(g, s0, fd, i) && s0[i].dirty
      ensures bm.Slots() == if panicked then old(bm.Slots()) else EvictedBelow(g, s0, fd, i + 1)
    {
      if bm.valid[i] && bm.dest[i].fd == fd {
        if bm.dirty[i] {
          var page := bm.dest[i].page;
          // The write-back `write_page(fd, page, ..)` finds the page resident.
          assert bm.IsCached(fd, page);
          if g.version == Legacy {
            return true;
          }
          var content := bm.buf[i];
          bm.Update(fd, page, content);
          assert bm.Slots() == EvictedBelow(g, s0, fd, i);
        }
        bm.valid[i] := false;
      }
      assert bm.Slots() == EvictedBelow(g, s0, fd, i + 1);
      return false;
    }

    /**
     * `_create_buf(fd, page, b)`: installs `b` in the addressed slot, valid,
     * clean and tagged `(fd, page)`. If that slot is valid and dirty, the
     * write-back of its old page re-enters `write_page`, which finds that
     * page resident and calls `update`, whose `borrow_mut` panics against the
     * `Ref`s the call's arguments still hold.
     */
    method CreateBuf(fd: Fd, page: nat, b: seq<byte>) returns (r: Outcome<()>)
      requires bm.g == g && bm.Valid() && |b| == g.pageSize
      modifies bm.buf, bm.valid, bm.dirty, bm.dest
      ensures bm.Valid()
      ensures CacheStep(r, bm.Slots()) == CreateBufStep(g, old(bm.Slots()), Tag(fd, page), b)
    {
      ghost var s0 := bm.Slots();
      var i := Index(g, fd, page);
      if bm.valid[i] && bm.dirty[i] {
        // The write-back `write_page(dest.0, dest.1, ..)` finds the old page resident.
        assert bm.IsCached(bm.dest[i].fd, bm.dest[i].page);
        return Panic;
      }
      bm.buf[i] := b;
      bm.valid[i] := true;
      bm.dirty[i] := false;
      bm.dest[i] := Tag(fd, page);
      assert bm.Slots() == Install(g, s0, Tag(fd, page), b);
      return Ok(());
    }

    method CreateFile(name: string, ioFails: bool) returns (r: Outcome<()>)
      requires Valid()
      modifies this
      ensures Valid()
      ensures Step(r, Abs()) == CreateStep(g, old(Abs()), name, ioFails)
    {
      ghost var st0 := Abs();
      if name in name2raw {
        return Err(AlreadyExists);
      }
      if ioFails {
        return Err(Io);
      }
      disk := disk.Create(name);
      name2raw := name2raw[name := None];
      assert bm.Slots() == st0.slots;
      return Ok(());
    }

    method OpenFile(name: string, osFd: Fd, ioFails: bool) returns (r: Outcome<Fd>)
      requires Valid() && osFd !in disk.fds
      modifies this
      ensures Valid()
      ensures Step(r, Abs()) == OpenStep(g, old(Abs()), name, osFd, ioFails)
    {
      ghost var st0 := Abs();
      if name !in name2raw {
        return Err(InvalidArgument);
      }
      match name2raw[name]
      case Some(_) =>
        return Err(InvalidArgument);
      case None =>
        if ioFails {
          return Err(Io);
        }
        disk := disk.Open(name, osFd);
        name2raw := name2raw[name := Some(osFd)];
        raw2name := raw2name[osFd := name];
        assert bm.Slots() == st0.slots;
        return Ok(osFd);
    }

    method CloseFile(fd: Fd, ioFails: bool) returns (r: Outcome<()>)
      requires Valid()
      modifies this, bm.buf, bm.valid, bm.dirty
      ensures Valid()
      ensures Step(r, Abs()) == CloseStep(g, old(Abs()), fd, ioFails)
    {
      if fd !in raw2name {
        return Err(InvalidArgument);
      }
      ghost var st0 := Abs();
      ghost var spec := CloseStep(g, st0, fd, ioFails);
      ghost var left0 := LeaveStep(g, st0.slots, fd);
      var name := raw2name[fd];
      name2raw := name2raw[name := None];
      raw2name := raw2name - {fd};
      ghost var st1 := Abs();
      assert st1.slots == st0.slots;
      var left := FileLeaveCache(fd);
      assert CacheStep(left, bm.Slots()) == left0;
      if left.Panic? {
        assert spec == Step(Panic, st1.(slots := left0.slots));
        return Panic;
      }
      disk := disk.Close(fd);
      r := if ioFails then Err(Io) else Ok(());
      assert spec == Step(r, st1.(slots := left0.slots, disk := st0.disk.Close(fd)));
    }

    method RemoveFile(name: string, ioFails: bool) returns (r: Outcome<()>)
      requires Valid()
      modifies this, bm.buf, bm.valid, bm.dirty
      ensures Valid()
      ensures Step(r, Abs()) == RemoveStep(g, old(Abs()), name, ioFails)
    {
      ghost var st0 := Abs();
      ghost var spec := RemoveStep(g, st0, name, ioFails);
      if name !in name2raw {
        return Err(NotFound);
      }
      match name2raw[name]
      case None =>
        name2raw := name2raw - {name};
        assert bm.Slots() == st0.slots;
        if ioFails {
          assert Abs() == spec.st;
          return Err(Io);
        }
        disk := disk.Unlink(name);
        assert Abs() == spec.st;
        return Ok(());
      case Some(fd) =>
        ghost var left0 := LeaveStep(g, st0.slots, fd);
        var left := FileLeaveCache(fd);
        assert CacheStep(left, bm.Slots()) == left0;
        if left.Panic? {
          assert Abs() == spec.st;
          return Panic;
        }
        raw2name := raw2name - {fd};
        name2raw := name2raw - {name};
        assert bm.Slots() == left0.slots;
        if ioFails {
          assert Abs() == spec.st;
          return Err(Io);
        }
        disk := disk.Unlink(name);
        assert Abs() == spec.st;
        return Ok(());
    }

    method ReadPage(fd: Fd, page: nat, buf: seq<byte>, ioFails: bool) returns (r: Outcome<nat>, out: seq<byte>)
      requires Valid() && |buf| == g.pageSize
      modifies bm.buf, bm.valid, bm.dirty, bm.dest
      ensures Valid()
      ensures PageRead(r, out, Abs()) == ReadStep(g, old(Abs()), fd, page, buf, ioFails)
    {
      if bm.IsCached(fd, page) {
        out := bm.Get(fd, page);
        return Ok(|out|), out;
      }
      if ioFails || fd !in disk.fds {
        return Err(Io), buf;
      }
      out := ReadAt(disk.Content(fd), g.Offset(page), buf);
      var created := CreateBuf(fd, page, out);
      if created.Panic? {
        return Panic, out;
      }
      r := Ok(|out|);
    }

    method WritePage(fd: Fd, page: nat, b: seq<byte>, ioFails: bool) returns (r: Outcome<nat>)
      requires Valid() && |b| == g.pageSize
      modifies this, bm.buf, bm.dirty, bm.valid, bm.dest
      ensures Valid()
      ensures Step(r, Abs()) == WriteStep(g, old(Abs()), fd, page, b, ioFails)
    {
      ghost var st0 := Abs();
      ghost var spec := WriteStep(g, st0, fd, page, b, ioFails);
      if bm.IsCached(fd, page) {
        bm.Update(fd, page, b);
        assert Abs() == spec.st;
        return Ok(|b|);
      }
      if ioFails || fd !in disk.fds {
        return Err(Io);
      }
      disk := disk.Write(fd, g.Offset(page), b);
      assert bm.Slots() == st0.slots;
      var created := CreateBuf(fd, page, b);
      assert Abs() == spec.st;
      if created.Panic? {
        return Panic;
      }
      r := Ok(|b|);
    }
  }
}
