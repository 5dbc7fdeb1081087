/**
 * Cache geometry: the constants of db/src/common/mod.rs, the shift
 * arithmetic built on them, and the two configurations the repository
 * ships (the current module and its older copy).
 */
module Common {

  /** `1 << n`. */
  function Pow2(n: nat): (r: nat)
    ensures r >= 1
  {
    if n == 0 then 1 else 2 * Pow2(n - 1)
  }

  /** `1 << (a + b) == (1 << a) * (1 << b)`. */
  lemma {:induction false} Pow2Add(a: nat, b: nat)
    ensures Pow2(a + b) == Pow2(a) * Pow2(b)
  {
    if a > 0 {
      Pow2Add(a - 1, b);
      var x: int, y: int := Pow2(a - 1), Pow2(b);
      assert Pow2(a + b) == 2 * (x * y);
      assert Pow2(a) == 2 * x;
      assert 2 * (x * y) == (2 * x) * y;
    }
  }

  lemma {:induction false} Pow2Monotone(a: nat, b: nat)
    requires a <= b
    ensures Pow2(a) <= Pow2(b)
  {
    if a < b {
      Pow2Monotone(a, b - 1);
    }
  }

  lemma MulMonotone(a: nat, b: nat, c: nat)
    requires a <= b
    ensures a * c <= b * c
  {
  }

  lemma MulSucc(a: nat, c: nat)
    ensures (a + 1) * c == a * c + c
  {
  }

  /** A suffix is its first element followed by the next suffix. */
  lemma SuffixCons<T>(s: seq<T>, k: nat)
    requires k < |s|
    ensures s[k..] == [s[k]] + s[k + 1..]
  {
  }

  /** Which copy of the file layer a geometry belongs to:
      `Current` is db/src/file_system/mod.rs, `Legacy` is db/src/file_system.rs. */
  datatype Version = Current | Legacy

  /**
   * The cache geometry: `fdField` low bits of a handle and `pageField` low
   * bits of a page number select one of `bufSize` slots of `pageSize` bytes.
   */
  datatype Geometry = Geometry(version: Version, fdField: nat, pageField: nat, pageSize: nat, bufSize: nat)
  {
    /**
     * `BUF_SIZE == 1 << (FD_FIELD + PAGE_FIELD)`, pages are non-empty, and
     * the field widths are small enough that the hard-coded asserts of
     * `_index` (`fd1 < 4`, `page1 < 256`, `index < 1024`) never fire.
     */
    ghost predicate WellFormed()
    {
      && bufSize == Pow2(fdField + pageField)
      && pageSize > 0
      && fdField <= 2
      && pageField <= 8
    }

    /** Number of handle blocks, `1 << FD_FIELD`. */
    function Blocks(): nat
    {
      Pow2(fdField)
    }

    /** Slots per handle block, `1 << PAGE_FIELD`. */
    function BlockSize(): nat
    {
      Pow2(pageField)
    }

    /** The byte offset `read_page` and `write_page` seek to on a miss. */
    function Offset(page: nat): nat
    {
      match version
      case Current => page * pageSize
      case Legacy => page
    }
  }

  const FD_FIELD: nat := 1
  const PAGE_FIELD: nat := 6
  const PAGE_SIZE: nat := 1024
  const BUF_SIZE: nat := Pow2(FD_FIELD + PAGE_FIELD)

  /** The geometry of db/src/file_system/mod.rs. */
  const CurrentGeometry: Geometry := Geometry(Current, FD_FIELD, PAGE_FIELD, PAGE_SIZE, BUF_SIZE)

  /** The constants of db/src/common/mod.rs: 2 blocks of 64 slots, 128 slots of 1024 bytes. */
  lemma CurrentConstants()
    ensures BUF_SIZE == 128
    ensures CurrentGeometry.WellFormed()
    ensures CurrentGeometry.Blocks() == 2 && CurrentGeometry.BlockSize() == 64
    ensures forall k: nat :: CurrentGeometry.Offset(k) == k * 1024
  {
    assert Pow2(7) == 128;
  }

  /** The geometry of the older copy, db/src/file_system.rs: its own
      `FD_FIELD = 2`, `PAGE_FIELD = 8`, `PAGE_SIZE = 256`, `BUF_SIZE = 1024`. */
  const LegacyGeometry: Geometry := Geometry(Legacy, 2, 8, 256, 1024)

  /** The older copy's constants agree with each other: 4 blocks of 256 slots,
      1024 slots in all, and a miss seeks to the page number itself. */
  lemma LegacyConstants()
    ensures LegacyGeometry.WellFormed()
    ensures LegacyGeometry.Blocks() == 4 && LegacyGeometry.BlockSize() == 256
    ensures forall k: nat :: LegacyGeometry.Offset(k) == k
  {
    assert Pow2(2) == 4;
    assert Pow2(8) == 256;
    assert Pow2(10) == 1024;
  }

  /**
   * The handle blocks tile the cache: there are `Blocks()` of them, each of
   * `BlockSize()` slots, block `a` is `[a * BlockSize(), (a + 1) * BlockSize())`,
   * and every block lies inside `[0, bufSize)`.
   */
  lemma BlocksTileCache(g: Geometry, a: nat)
    requires g.WellFormed()
    requires a < g.Blocks()
    ensures g.Blocks() * g.BlockSize() == g.bufSize
    ensures a * g.BlockSize() + g.BlockSize() <= g.bufSize
  {
    Pow2Add(g.fdField, g.pageField);
    MulMonotone(a + 1, g.Blocks(), g.BlockSize());
    assert (a + 1) * g.BlockSize() == a * g.BlockSize() + g.BlockSize();
  }
}
