/**
 * The operating system behind the file layer: named files, their bytes and
 * open descriptors. The source reaches it through `std::fs::File::create`,
 * `std::fs::remove_file` and nix's `open`, `lseek`, `read`, `write` and
 * `close`; this module stands in for those calls with functions on one value.
 * Descriptors refer to inodes, so a file removed while open stays readable
 * and writable through its descriptor, as on POSIX systems.
 */
module Storage {

  type byte = b: int | 0 <= b < 256
  type Fd = nat
  type Inode = nat

  function Zeros(n: nat): (r: seq<byte>)
    ensures |r| == n
    ensures forall k | 0 <= k < n :: r[k] == 0
  {
    seq(n, _ => 0)
  }

  /** The bytes of a file after a positioned write of `data` at offset `off`;
      a gap between the old end of the file and `off` reads as zeros. */
  function WriteAt(content: seq<byte>, off: nat, data: seq<byte>): (r: seq<byte>)
    ensures |r| == if off + |data| > |content| then off + |data| else |content|
    ensures forall k | 0 <= k < |r| ::
      r[k] == if off <= k < off + |data| then data[k - off] else if k < |content| then content[k] else 0
  {
    var head := if off <= |content| then content[..off] else content + Zeros(off - |content|);
    var tail := if off + |data| < |content| then content[off + |data|..] else [];
    head + data + tail
  }

  /** The caller's buffer after a positioned read of `|buf|` bytes at offset
      `off`: bytes past the end of the file leave the buffer as it was. */
  function ReadAt(content: seq<byte>, off: nat, buf: seq<byte>): (r: seq<byte>)
    ensures |r| == |buf|
    ensures forall k | 0 <= k < |buf| :: r[k] == if off + k < |content| then content[off + k] else buf[k]
  {
    if |content| <= off then buf
    else if off + |buf| <= |content| then content[off..off + |buf|]
    else content[off..] + buf[|content| - off..]
  }

  /** Reading back the range just written returns the written bytes. */
  lemma ReadAfterWrite(content: seq<byte>, off: nat, data: seq<byte>, buf: seq<byte>)
    requires |buf| == |data|
    ensures ReadAt(WriteAt(content, off, data), off, buf) == data
  {
    var r := ReadAt(WriteAt(content, off, data), off, buf);
    assert forall k | 0 <= k < |data| :: r[k] == data[k];
  }

  /** A write leaves a range it does not touch readable as before, unless the
      range runs past the old end of the file and the write extends it. */
  lemma DisjointWriteKeeps(content: seq<byte>, off: nat, buf: seq<byte>, woff: nat, data: seq<byte>)
    requires woff + |data| <= off || (off + |buf| <= woff && off + |buf| <= |content|)
    ensures ReadAt(WriteAt(content, woff, data), off, buf) == ReadAt(content, off, buf)
  {
    var r := ReadAt(WriteAt(content, woff, data), off, buf);
    var r0 := ReadAt(content, off, buf);
    assert forall k | 0 <= k < |buf| :: r[k] == r0[k];
  }

  /**
   * The OS state: the directory (name to inode), the bytes of every inode,
   * the open descriptors (descriptor to inode) and the next unused inode.
   */
  datatype Disk = Disk(dir: map<string, Inode>, inodes: map<Inode, seq<byte>>, fds: map<Fd, Inode>, nextInode: Inode)
  {
    ghost predicate Valid()
    {
      && (forall n | n in dir :: dir[n] in inodes)
      && (forall f | f in fds :: fds[f] in inodes)
      && (forall i | i in inodes :: i < nextInode)
    }

    /** The bytes of the file open as `fd`. */
    function Content(fd: Fd): seq<byte>
      requires Valid() && fd in fds
    {
      inodes[fds[fd]]
    }

    /** `File::create(name)`: an empty file, truncating one that exists. */
    function Create(name: string): (d: Disk)
      requires Valid()
      ensures d.Valid()
      ensures d.dir.Keys == dir.Keys + {name} && d.inodes[d.dir[name]] == []
      ensures d.fds == fds
      ensures forall n | n in dir && n != name :: d.dir[n] == dir[n]
    {
      if name in dir then this.(inodes := inodes[dir[name] := []])
      else Disk(dir[name := nextInode], inodes[nextInode := []], fds, nextInode + 1)
    }

    /** `open(name, O_RDWR)` returning the fresh descriptor `fd`. */
    function Open(name: string, fd: Fd): (d: Disk)
      requires Valid() && name in dir && fd !in fds
      ensures d.Valid() && d.dir == dir
      ensures d.fds.Keys == fds.Keys + {fd} && d.Content(fd) == inodes[dir[name]]
      ensures forall f | f in fds :: d.Content(f) == Content(f)
    {
      this.(fds := fds[fd := dir[name]])
    }

    /** `close(fd)`: the descriptor is released. */
    function Close(fd: Fd): (d: Disk)
      requires Valid()
      ensures d.Valid() && d.dir == dir
      ensures d.fds.Keys == fds.Keys - {fd}
      ensures forall f | f in d.fds :: d.Content(f) == Content(f)
    {
      this.(fds := fds - {fd})
    }

    /** `remove_file(name)`: the name goes; descriptors still open on it keep the inode. */
    function Unlink(name: string): (d: Disk)
      requires Valid()
      ensures d.Valid() && d.dir.Keys == dir.Keys - {name}
      ensures d.fds == fds && d.inodes == inodes
    {
      this.(dir := dir - {name})
    }

    /** `lseek(fd, off)` then `write(fd, data)`. */
    function Write(fd: Fd, off: nat, data: seq<byte>): (d: Disk)
      requires Valid() && fd in fds
      ensures d.Valid() && d.dir == dir && d.fds == fds
      ensures d.Content(fd) == WriteAt(Content(fd), off, data)
      ensures forall f | f in fds && fds[f] != fds[fd] :: d.Content(f) == Content(f)
    {
      this.(inodes := inodes[fds[fd] := WriteAt(inodes[fds[fd]], off, data)])
    }
  }
}
