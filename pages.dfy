/**
 * Where pages live in the backing file. The current `read_page` and
 * `write_page` seek to `page * PAGE_SIZE`, so distinct pages occupy disjoint
 * byte ranges and `test_100pages_write_read` reads every page back. The
 * older copy seeks to the byte offset `page` itself, so neighbouring pages
 * overlap and writing one corrupts the other.
 */
module PageLayout {
  import opened Common
  import opened Storage

  /** The file after writing `pages[0]`, `pages[1]`, ... in order, page `k` at `g.Offset(k)`. */
  function WriteSequential(g: Geometry, content: seq<byte>, pages: seq<seq<byte>>): (r: seq<byte>)
    decreases |pages|
  {
    if |pages| == 0 then content
    else
      var n := |pages| - 1;
      WriteAt(WriteSequential(g, content, pages[..n]), g.Offset(n), pages[n])
  }

  /** The file grows by one page written after the others. */
  lemma WriteSequentialNext(g: Geometry, content: seq<byte>, pages: seq<seq<byte>>, before: seq<byte>, after: seq<byte>)
    requires |pages| > 0 && before == WriteSequential(g, content, pages[..|pages| - 1])
    requires after == WriteAt(before, g.Offset(|pages| - 1), pages[|pages| - 1])
    ensures after == WriteSequential(g, content, pages)
  {
  }

  /** With pages of `pageSize` bytes at `k * pageSize`, the file covers every page written. */
  lemma {:induction false} WriteSequentialCovers(g: Geometry, content: seq<byte>, pages: seq<seq<byte>>)
    requires g.version == Current
    requires forall k | 0 <= k < |pages| :: |pages[k]| == g.pageSize
    ensures |WriteSequential(g, content, pages)| >= |pages| * g.pageSize
  {
    if |pages| > 0 {
      var n := |pages| - 1;
      WriteSequentialCovers(g, content, pages[..n]);
      MulSucc(n, g.pageSize);
    }
  }

  /**
   * `test_100pages_write_read`, at the level of the file: after writing any
   * number of pages in order with the current layout, reading page `q` at
   * its offset returns exactly `pages[q]`, whatever the caller's buffer held.
   */
  lemma {:induction false} SequentialPagesReadBack(g: Geometry, content: seq<byte>, pages: seq<seq<byte>>, q: nat, buf: seq<byte>)
    requires g.version == Current
    requires forall k | 0 <= k < |pages| :: |pages[k]| == g.pageSize
    requires q < |pages| && |buf| == g.pageSize
    ensures ReadAt(WriteSequential(g, content, pages), g.Offset(q), buf) == pages[q]
  {
    var n := |pages| - 1;
    var before := WriteSequential(g, content, pages[..n]);
    if q == n {
      ReadAfterWrite(before, g.Offset(n), pages[n], buf);
    } else {
      SequentialPagesReadBack(g, content, pages[..n], q, buf);
      WriteSequentialCovers(g, content, pages[..n]);
      MulMonotone(q + 1, n, g.pageSize);
      MulSucc(q, g.pageSize);
      DisjointWriteKeeps(before, g.Offset(q), buf, g.Offset(n), pages[n]);
    }
  }

  /**
   * The buffers left by reading pages `from .. n - 1` in order at
   * `g.Offset(k)`, one buffer reused from one read to the next, starting
   * from `buf`.
   */
  function ReadChain(g: Geometry, content: seq<byte>, from: nat, n: nat, buf: seq<byte>): (r: seq<seq<byte>>)
    ensures |r| == if n <= from then 0 else n - from
    decreases n - from
  {
    if n <= from then []
    else
      var b := ReadAt(content, g.Offset(from), buf);
      [b] + ReadChain(g, content, from + 1, n, b)
  }

  /** A chain of reads over a file in which every page reads back as `pages[q]` returns those pages in order. */
  lemma {:induction false} ReadChainOfPages(g: Geometry, file: seq<byte>, pages: seq<seq<byte>>, from: nat, buf: seq<byte>)
    requires forall k | 0 <= k < |pages| :: |pages[k]| == g.pageSize
    requires forall q: nat, b: seq<byte> | q < |pages| && |b| == g.pageSize :: ReadAt(file, g.Offset(q), b) == pages[q]
    requires |buf| == g.pageSize && from <= |pages|
    ensures ReadChain(g, file, from, |pages|, buf) == pages[from..]
    decreases |pages| - from
  {
    if from < |pages| {
      ReadChainOfPages(g, file, pages, from + 1, pages[from]);
      SuffixCons(pages, from);
    }
  }

  /**
   * The read loop of `test_100pages_write_read` over the file its write loop
   * left: with the current layout, reading pages `0 .. |pages| - 1` in order
   * returns exactly the pages written, whatever the buffer first held.
   */
  lemma ReadChainReturnsPages(g: Geometry, content: seq<byte>, pages: seq<seq<byte>>, buf: seq<byte>)
    requires g.version == Current
    requires forall k | 0 <= k < |pages| :: |pages[k]| == g.pageSize
    requires |buf| == g.pageSize
    ensures ReadChain(g, WriteSequential(g, content, pages), 0, |pages|, buf) == pages
  {
    var file := WriteSequential(g, content, pages);
    forall q: nat, b: seq<byte> | q < |pages| && |b| == g.pageSize
      ensures ReadAt(file, g.Offset(q), b) == pages[q]
    {
      SequentialPagesReadBack(g, content, pages, q, b);
    }
    ReadChainOfPages(g, file, pages, 0, buf);
    assert pages[0..] == pages;
  }

  /**
   * The older layout as written: page 1 starts one byte after page 0, so
   * writing page 1 after page 0 overwrites all but the first byte of page 0,
   * and reading page 0 back returns page 1's first byte in position 1.
   */
  lemma LegacyNeighbourOverlap(g: Geometry, content: seq<byte>, b0: seq<byte>, b1: seq<byte>, buf: seq<byte>)
    requires g.version == Legacy && g.pageSize >= 2
    requires |b0| == g.pageSize && |b1| == g.pageSize && |buf| == g.pageSize
    ensures ReadAt(WriteSequential(g, content, [b0, b1]), g.Offset(0), buf)[1] == b1[0]
    ensures b0[1] != b1[0] ==> ReadAt(WriteSequential(g, content, [b0, b1]), g.Offset(0), buf) != b0
  {
    assert [b0, b1][..1] == [b0];
    assert [b0][..0] == [];
  }
}
