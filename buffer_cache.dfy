/**
 * `BufManager` of db/src/file_system/mod.rs and of its older copy in
 * db/src/file_system.rs: a direct-mapped page cache kept as four parallel
 * arrays indexed by slot (`buf`, `valid`, `dirty`, `dest`).
 *
 * The first half states the cache on values: a slot array `seq<Slot>`, the
 * invariant `Indexed` (a valid slot's tag addresses that slot), residency,
 * and the three ways the source changes slots. The class then implements
 * the source's reads and `update` on arrays against those functions.
 */
module BufferCache {
  import opened Common
  import opened Storage

  /** The `(RawFd, PageID)` pair a slot belongs to (`dest`). */
  datatype Tag = Tag(fd: Fd, page: nat)

  /** First slot of the block that handle `fd` addresses: `fd1 << PAGE_FIELD`. */
  function BlockStart(g: Geometry, fd: Fd): (r: nat)
    requires g.WellFormed()
    ensures r + g.BlockSize() <= g.bufSize
  {
    var a := fd % Pow2(g.fdField);
    BlocksTileCache(g, a);
    a * Pow2(g.pageField)
  }

  /** `_index`: the slot of page `page` of handle `fd`,
      `((fd % (1 << FD_FIELD)) << PAGE_FIELD) + page % (1 << PAGE_FIELD)`. */
  function Index(g: Geometry, fd: Fd, page: nat): (i: nat)
    requires g.WellFormed()
    ensures BlockStart(g, fd) <= i < BlockStart(g, fd) + g.BlockSize()
    ensures i < g.bufSize
  {
    BlockStart(g, fd) + page % Pow2(g.pageField)
  }

  /** The three asserts in `_index` hold for every handle and page number. */
  lemma IndexAssertsHold(g: Geometry, fd: Fd, page: nat)
    requires g.WellFormed()
    ensures fd % Pow2(g.fdField) < 4
    ensures page % Pow2(g.pageField) < 256
    ensures Index(g, fd, page) < 1024
  {
    Pow2Monotone(g.fdField, 2);
    Pow2Monotone(g.pageField, 8);
    Pow2Monotone(g.fdField + g.pageField, 10);
    assert Pow2(2) == 4 && Pow2(8) == 256 && Pow2(10) == 1024;
  }

  /** The last page slot of the last block is the last slot of the cache:
      `_index` reaches `bufSize - 1`, so its final assert cannot be tightened. */
  lemma {:induction false} LastSlotReached(g: Geometry)
    requires g.WellFormed()
    ensures Index(g, g.Blocks() - 1, g.BlockSize() - 1) == g.bufSize - 1
  {
    var b, n := g.Blocks(), g.BlockSize();
    assert (b - 1) % b == b - 1;
    assert (n - 1) % n == n - 1;
    BlocksTileCache(g, 0);
    MulSucc(b - 1, n);
  }

  /** In the older copy the asserts `fd1 < 4`, `page1 < 256` and `index < 1024`
      are exactly tight: handle 3, page 255 lands in slot 1023. */
  lemma LegacyAssertsTight()
    ensures LegacyGeometry.WellFormed()
    ensures 3 % Pow2(LegacyGeometry.fdField) == 3 && 255 % Pow2(LegacyGeometry.pageField) == 255
    ensures Index(LegacyGeometry, 3, 255) == 1023
  {
    LegacyConstants();
    LastSlotReached(LegacyGeometry);
  }

  lemma SplitUnique(q1: nat, r1: nat, q2: nat, r2: nat, d: nat)
    requires r1 < d && r2 < d
    requires q1 * d + r1 == q2 * d + r2
    ensures q1 == q2 && r1 == r2
  {
    if q1 < q2 {
      MulMonotone(q1 + 1, q2, d);
      assert false;
    } else if q2 < q1 {
      MulMonotone(q2 + 1, q1, d);
      assert false;
    }
  }

  lemma ModAddDivisor(a: nat, d: nat)
    requires d > 0
    ensures (a + d) % d == a % d
  {
    var q, r := a / d, a % d;
    assert a + d == (q + 1) * d + r;
    SplitUnique(q + 1, r, (a + d) / d, (a + d) % d, d);
  }

  /** Two pages share a slot exactly when the low bits of their handles and
      the low bits of their page numbers coincide: the direct-mapped conflict. */
  lemma SameSlotIff(g: Geometry, a: Tag, b: Tag)
    requires g.WellFormed()
    ensures Index(g, a.fd, a.page) == Index(g, b.fd, b.page) <==>
      a.fd % g.Blocks() == b.fd % g.Blocks() && a.page % g.BlockSize() == b.page % g.BlockSize()
  {
    if Index(g, a.fd, a.page) == Index(g, b.fd, b.page) {
      SplitUnique(a.fd % g.Blocks(), a.page % g.BlockSize(), b.fd % g.Blocks(), b.page % g.BlockSize(), g.BlockSize());
    }
  }

  /** Pages `BlockSize()` apart of the same handle collide in one slot. */
  lemma PagesOneBlockApartCollide(g: Geometry, fd: Fd, page: nat)
    requires g.WellFormed()
    ensures Index(g, fd, page + g.BlockSize()) == Index(g, fd, page)
  {
    ModAddDivisor(page, g.BlockSize());
  }

  /** One cache slot: its page bytes, `valid`, `dirty` and `dest`. */
  datatype Slot = Slot(content: seq<byte>, valid: bool, dirty: bool, dest: Tag)

  /** The cache invariant: `bufSize` slots of `pageSize` bytes, and every valid
      slot's tag indexes back to that slot. */
  ghost predicate Indexed(g: Geometry, s: seq<Slot>)
  {
    && g.WellFormed()
    && |s| == g.bufSize
    && (forall i | 0 <= i < |s| :: |s[i].content| == g.pageSize)
    && (forall i | 0 <= i < |s| && s[i].valid :: Index(g, s[i].dest.fd, s[i].dest.page) == i)
  }

  /** Page `t` is held by some valid slot (a fully associative reading). */
  ghost predicate Resident(s: seq<Slot>, t: Tag)
  {
    exists i | 0 <= i < |s| :: s[i].valid && s[i].dest == t
  }

  /** The bytes a valid slot holds for page `t`. */
  ghost function Content(s: seq<Slot>, t: Tag): seq<byte>
    requires Resident(s, t)
  {
    var i :| 0 <= i < |s| && s[i].valid && s[i].dest == t;
    s[i].content
  }

  /** Tag matching is exact: `t` is resident iff the one slot it maps to is
      valid and tagged `t`, and then that slot holds its bytes. */
  lemma ResidentAtIndex(g: Geometry, s: seq<Slot>, t: Tag)
    requires Indexed(g, s)
    ensures var k := Index(g, t.fd, t.page);
      (Resident(s, t) <==> s[k].valid && s[k].dest == t)
      && (Resident(s, t) ==> Content(s, t) == s[k].content)
  {
    var k := Index(g, t.fd, t.page);
    if s[k].valid && s[k].dest == t {
      assert Resident(s, t);
    }
  }

  /** Installing `t` would evict a dirty page: the target slot is valid and dirty. */
  ghost predicate InstallPanics(g: Geometry, s: seq<Slot>, t: Tag)
    requires Indexed(g, s)
  {
    var k := Index(g, t.fd, t.page);
    s[k].valid && s[k].dirty
  }

  /** The slots after `_create_buf` installs `b` for `t`: valid, clean, tagged `t`. */
  ghost function Install(g: Geometry, s: seq<Slot>, t: Tag, b: seq<byte>): (r: seq<Slot>)
    requires Indexed(g, s) && |b| == g.pageSize
    ensures Indexed(g, r)
  {
    s[Index(g, t.fd, t.page) := Slot(b, true, false, t)]
  }

  /** After an install `t` is resident with bytes `b`; any other page stays
      resident, with its bytes, unless it shared `t`'s slot. */
  lemma InstallResidency(g: Geometry, s: seq<Slot>, t: Tag, b: seq<byte>)
    requires Indexed(g, s) && |b| == g.pageSize
    ensures var r := Install(g, s, t, b);
      && Resident(r, t) && Content(r, t) == b
      && (forall u: Tag | u != t :: Resident(r, u) <==> Resident(s, u) && Index(g, u.fd, u.page) != Index(g, t.fd, t.page))
      && (forall u: Tag | u != t && Resident(r, u) :: Content(r, u) == Content(s, u))
  {
    var r := Install(g, s, t, b);
    ResidentAtIndex(g, r, t);
    forall u: Tag | u != t
      ensures Resident(r, u) <==> Resident(s, u) && Index(g, u.fd, u.page) != Index(g, t.fd, t.page)
      ensures Resident(r, u) ==> Content(r, u) == Content(s, u)
    {
      ResidentAtIndex(g, r, u);
      ResidentAtIndex(g, s, u);
    }
  }

  /** The slots after `update`: the addressed slot gets `b` and turns dirty. */
  ghost function Updated(g: Geometry, s: seq<Slot>, t: Tag, b: seq<byte>): (r: seq<Slot>)
    requires Indexed(g, s) && |b| == g.pageSize
    ensures Indexed(g, r)
  {
    var k := Index(g, t.fd, t.page);
    s[k := s[k].(content := b, dirty := true)]
  }

  /** `update` changes no residency. When `t` is resident it then reads back
      `b` and every other resident page keeps its bytes (otherwise the write
      lands in a slot another page owns). */
  lemma UpdateResidency(g: Geometry, s: seq<Slot>, t: Tag, b: seq<byte>)
    requires Indexed(g, s) && |b| == g.pageSize
    ensures var r := Updated(g, s, t, b);
      && (forall u: Tag :: Resident(r, u) <==> Resident(s, u))
      && (Resident(s, t) ==> Content(r, t) == b)
      && (Resident(s, t) ==> forall u: Tag | u != t && Resident(r, u) :: Content(r, u) == Content(s, u))
  {
    var r := Updated(g, s, t, b);
    forall u: Tag
      ensures Resident(r, u) <==> Resident(s, u)
      ensures Resident(s, t) && Resident(r, u) && u != t ==> Content(r, u) == Content(s, u)
    {
      ResidentAtIndex(g, r, u);
      ResidentAtIndex(g, s, u);
    }
    ResidentAtIndex(g, r, t);
    ResidentAtIndex(g, s, t);
  }

  /** Slot `j` is one `_file_leave_cache(fd)` drops: inside `fd`'s block,
      valid, and owned by handle `fd`. */
  ghost predicate Owned(g: Geometry, s: seq<Slot>, fd: Fd, j: int)
    requires g.WellFormed() && 0 <= j < |s|
  {
    BlockStart(g, fd) <= j < BlockStart(g, fd) + g.BlockSize() && s[j].valid && s[j].dest.fd == fd
  }

  /** The slots after `_file_leave_cache(fd)` has scanned its block up to `k`:
      owned slots below `k` are invalid; bytes, dirty flags and tags are untouched. */
  ghost function EvictedBelow(g: Geometry, s: seq<Slot>, fd: Fd, k: int): (r: seq<Slot>)
    requires Indexed(g, s)
    ensures Indexed(g, r)
  {
    seq(|s|, j requires 0 <= j < |s| => if j < k && Owned(g, s, fd, j) then s[j].(valid := false) else s[j])
  }

  /** The slots after the whole scan of `_file_leave_cache(fd)`. */
  ghost function Evicted(g: Geometry, s: seq<Slot>, fd: Fd): (r: seq<Slot>)
    requires Indexed(g, s)
    ensures Indexed(g, r)
  {
    EvictedBelow(g, s, fd, BlockStart(g, fd) + g.BlockSize())
  }

  /** A partial scan only drops residency and keeps bytes. */
  lemma EvictedBelowShrinks(g: Geometry, s: seq<Slot>, fd: Fd, k: int)
    requires Indexed(g, s)
    ensures var r := EvictedBelow(g, s, fd, k);
      forall u: Tag | Resident(r, u) :: Resident(s, u) && Content(r, u) == Content(s, u)
  {
    var r := EvictedBelow(g, s, fd, k);
    forall u: Tag | Resident(r, u)
      ensures Resident(s, u) && Content(r, u) == Content(s, u)
    {
      ResidentAtIndex(g, r, u);
      ResidentAtIndex(g, s, u);
    }
  }

  /** After the full scan no page of handle `fd` is resident anywhere in the
      cache, and every page of another handle is resident as before. */
  lemma EvictedDropsHandle(g: Geometry, s: seq<Slot>, fd: Fd)
    requires Indexed(g, s)
    ensures var r := Evicted(g, s, fd);
      && (forall u: Tag :: Resident(r, u) <==> Resident(s, u) && u.fd != fd)
      && (forall u: Tag | Resident(r, u) :: Content(r, u) == Content(s, u))
  {
    var r := Evicted(g, s, fd);
    forall u: Tag
      ensures Resident(r, u) <==> Resident(s, u) && u.fd != fd
      ensures Resident(r, u) ==> Content(r, u) == Content(s, u)
    {
      ResidentAtIndex(g, r, u);
      ResidentAtIndex(g, s, u);
    }
  }

  /** The older `_file_leave_cache` panics when some owned slot of its block is dirty. */
  ghost predicate LeaveCachePanics(g: Geometry, s: seq<Slot>, fd: Fd)
    requires g.WellFormed()
  {
    g.version == Legacy && exists j | 0 <= j < |s| :: Owned(g, s, fd, j) && s[j].dirty
  }

  /** No slot is dirty: what the cache looks like when every page got there
      by a read or a missed write and no write has hit it since. */
  ghost predicate Clean(s: seq<Slot>)
  {
    forall i | 0 <= i < |s| :: !s[i].dirty
  }

  /** Only a dirty slot makes the cache panic, and installs and evictions
      never dirty a slot: a clean cache stays clean and never panics. */
  lemma CleanNeverPanics(g: Geometry, s: seq<Slot>, t: Tag, b: seq<byte>, fd: Fd, k: int)
    requires Indexed(g, s) && Clean(s) && |b| == g.pageSize
    ensures !InstallPanics(g, s, t) && !LeaveCachePanics(g, s, fd)
    ensures Clean(Install(g, s, t, b)) && Clean(EvictedBelow(g, s, fd, k))
  {
  }

  /**
   * The eviction that panics: page `t` is installed in an empty slot and then
   * updated, so its slot is valid and dirty; page `u`, `BlockSize()` pages
   * further on the same handle, is not resident and installing it panics.
   */
  lemma {:induction false} UpdatedSlotBlocksNeighbour(g: Geometry, s: seq<Slot>, fd: Fd, page: nat, b1: seq<byte>, b2: seq<byte>)
    requires Indexed(g, s) && |b1| == g.pageSize && |b2| == g.pageSize
    requires !s[Index(g, fd, page)].valid
    ensures var t, u := Tag(fd, page), Tag(fd, page + g.BlockSize());
      var r := Updated(g, Install(g, s, t, b1), t, b2);
      && !InstallPanics(g, s, t) && !Resident(s, t)
      && Resident(Install(g, s, t, b1), t)
      && !Resident(r, u) && InstallPanics(g, r, u)
  {
    var t, u := Tag(fd, page), Tag(fd, page + g.BlockSize());
    var r := Updated(g, Install(g, s, t, b1), t, b2);
    PagesOneBlockApartCollide(g, fd, page);
    ResidentAtIndex(g, s, t);
    InstallResidency(g, s, t, b1);
    ResidentAtIndex(g, r, u);
  }

  /** The cache itself: four arrays of `bufSize` entries. */
  class BufManager {
    const g: Geometry
    const buf: array<seq<byte>>
    const valid: array<bool>
    const dirty: array<bool>
    const dest: array<Tag>

    ghost predicate Shaped()
    {
      && buf.Length == g.bufSize && valid.Length == g.bufSize
      && dirty.Length == g.bufSize && dest.Length == g.bufSize
      && valid != dirty
    }

    /** The arrays read slot by slot. */
    ghost function Slots(): (s: seq<Slot>)
      requires Shaped()
      reads buf, valid, dirty, dest
      ensures |s| == g.bufSize
      ensures forall i | 0 <= i < g.bufSize :: s[i] == Slot(buf[i], valid[i], dirty[i], dest[i])
    {
      seq(g.bufSize, i requires 0 <= i < g.bufSize reads buf, valid, dirty, dest =>
        Slot(buf[i], valid[i], dirty[i], dest[i]))
    }

    ghost predicate Valid()
      reads buf, valid, dirty, dest
    {
      Shaped() && Indexed(g, Slots())
    }

    /** `BufManager::new`: zeroed pages, every slot invalid, clean, tagged `(0, 0)`. */
    constructor (g: Geometry)
      requires g.WellFormed()
      ensures this.g == g && Valid()
      ensures fresh(buf) && fresh(valid) && fresh(dirty) && fresh(dest)
      ensures Slots() == seq(g.bufSize, _ => Slot(Zeros(g.pageSize), false, false, Tag(0, 0)))
    {
      this.g := g;
      buf := new seq<byte>[g.bufSize](_ => Zeros(g.pageSize));
      valid := new bool[g.bufSize](_ => false);
      dirty := new bool[g.bufSize](_ => false);
      dest := new Tag[g.bufSize](_ => Tag(0, 0));
      new;
      assert Slots() == seq(g.bufSize, _ => Slot(Zeros(g.pageSize), false, false, Tag(0, 0)));
    }

    /** `is_cached`: the tag test on the one addressed slot decides residency. */
    function IsCached(fd: Fd, page: nat): (r: bool)
      requires Valid()
      reads buf, valid, dirty, dest
      ensures r == Resident(Slots(), Tag(fd, page))
    {
      ResidentAtIndex(g, Slots(), Tag(fd, page));
      var i := Index(g, fd, page);
      valid[i] && dest[i] == Tag(fd, page)
    }

    /** `get`: the bytes of the addressed slot, which are the page's bytes when it is resident. */
    function Get(fd: Fd, page: nat): (p: seq<byte>)
      requires Valid()
      reads buf, valid, dirty, dest
      ensures |p| == g.pageSize
      ensures Resident(Slots(), Tag(fd, page)) ==> p == Content(Slots(), Tag(fd, page))
    {
      ResidentAtIndex(g, Slots(), Tag(fd, page));
      buf[Index(g, fd, page)]
    }

    /** `update`: the addressed slot takes `b` and is marked dirty. */
    method Update(fd: Fd, page: nat, b: seq<byte>)
      requires Valid() && |b| == g.pageSize
      modifies buf, dirty
      ensures Valid()
      ensures Slots() == Updated(g, old(Slots()), Tag(fd, page), b)
    {
      var i := Index(g, fd, page);
      buf[i] := b;
      dirty[i] := true;
      assert Slots() == Updated(g, old(Slots()), Tag(fd, page), b);
    }
  }
}
