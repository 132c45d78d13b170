/** The read-only initramfs driver of kernel/src/c/fs/file/initramfs.c.

    The archive is the old binary cpio format: a chain of 26-byte headers
    of little-endian 16-bit fields, each followed by its NUL-terminated
    name and its data, both padded to an even length. The archive is a
    sequence of bytes and a header "pointer" is an offset into it; NULL
    pointers are `None`. */
module Initramfs {
  import opened Wrappers

  type Byte = b: nat | b < 0x100

  /** `070707` octal, the binary cpio magic. */
  const MAGIC: nat := 0x71C7

  /** `sizeof(struct ARC_HeaderCPIO)`, also `ARC_NAME_OFFSET`. */
  const HEADER_SIZE: nat := 26

  /** `EPERM` in the C library's numbering. */
  const EPERM: int := 1

  /** The fields of `struct ARC_HeaderCPIO`, in declaration order. */
  datatype Header = Header(
    magic: nat, device: nat, inode: nat, mode: nat, uid: nat, gid: nat,
    nlink: nat, rdev: nat, modTimeHigh: nat, modTimeLow: nat,
    nameSize: nat, fileSizeHigh: nat, fileSizeLow: nat)

  /** The little-endian 16-bit field at `o`. */
  function U16At(a: seq<Byte>, o: nat): (r: nat)
    requires o + 2 <= |a|
    ensures r < 0x1_0000
  {
    (a[o] as nat) + 0x100 * (a[o + 1] as nat)
  }

  /** The header read from the 26 bytes at `o`. */
  function HeaderAt(a: seq<Byte>, o: nat): (h: Header)
    requires o + HEADER_SIZE <= |a|
    ensures h.magic == U16At(a, o) && h.nameSize == U16At(a, o + 20)
    ensures h.fileSizeHigh < 0x1_0000 && h.fileSizeLow < 0x1_0000
    ensures h.modTimeHigh < 0x1_0000 && h.modTimeLow < 0x1_0000
  {
    Header(U16At(a, o), U16At(a, o + 2), U16At(a, o + 4), U16At(a, o + 6),
           U16At(a, o + 8), U16At(a, o + 10), U16At(a, o + 12), U16At(a, o + 14),
           U16At(a, o + 16), U16At(a, o + 18), U16At(a, o + 20),
           U16At(a, o + 22), U16At(a, o + 24))
  }

  /** `x + (x & 1)`: `x` rounded up to an even number. */
  function Even(x: nat): (r: nat)
    ensures r % 2 == 0
    ensures x <= r <= x + 1
    ensures x % 2 == 0 ==> r == x
  {
    x + x % 2
  }

  /** `(filesize[0] << 16) | filesize[1]`: the unpadded file size. */
  function FileSize(h: Header): (r: nat)
    requires h.fileSizeHigh < 0x1_0000 && h.fileSizeLow < 0x1_0000
    ensures r < 0x1_0000_0000
    ensures r / 0x1_0000 == h.fileSizeHigh && r % 0x1_0000 == h.fileSizeLow
  {
    h.fileSizeHigh * 0x1_0000 + h.fileSizeLow
  }

  /** `ARC_DATA_SIZE`: the file size padded to an even length. */
  function DataSize(h: Header): (r: nat)
    requires h.fileSizeHigh < 0x1_0000 && h.fileSizeLow < 0x1_0000
    ensures r % 2 == 0 && FileSize(h) <= r <= FileSize(h) + 1
  {
    Even(FileSize(h))
  }

  /** `ARC_DATA_OFFSET`: the header and the even-padded name. */
  function DataOffset(h: Header): (r: nat)
    ensures r % 2 == 0 && HEADER_SIZE + h.nameSize <= r <= HEADER_SIZE + h.nameSize + 1
  {
    HEADER_SIZE + Even(h.nameSize)
  }

  /** A header fits at `o` and carries the magic number. */
  predicate IsHeader(a: seq<Byte>, o: nat)
  {
    o + HEADER_SIZE <= |a| && U16At(a, o) == MAGIC
  }

  /** Where the header after the one at `o` starts: an even distance
      further, past the header, the padded name and the padded data. */
  function NextHeader(a: seq<Byte>, o: nat): (r: nat)
    requires o + HEADER_SIZE <= |a|
    ensures r >= o + HEADER_SIZE && (r - o) % 2 == 0
  {
    var h := HeaderAt(a, o);
    EvenSum(DataOffset(h), DataSize(h));
    o + DataOffset(h) + DataSize(h)
  }

  lemma EvenSum(x: nat, y: nat)
    requires x % 2 == 0 && y % 2 == 0
    ensures (x + y) % 2 == 0
  {
  }

  /** A C string: the bytes before the first NUL, or all of them. */
  function CString(s: seq<Byte>): (r: seq<Byte>)
    ensures |r| <= |s| && r == s[..|r|]
    ensures forall i :: 0 <= i < |r| ==> r[i] != 0
    ensures |r| < |s| ==> s[|r|] == 0
  {
    if |s| == 0 || s[0] == 0 then [] else [s[0]] + CString(s[1..])
  }

  /** The NUL-terminated name that follows the header at `o`. */
  function NameAt(a: seq<Byte>, o: nat): seq<Byte>
    requires o + HEADER_SIZE <= |a|
  {
    CString(a[o + HEADER_SIZE..])
  }

  /** `strcmp(name, filename) == 0` for the header at `o`. */
  predicate Matches(a: seq<Byte>, o: nat, filename: seq<Byte>)
    requires o + HEADER_SIZE <= |a|
  {
    NameAt(a, o) == CString(filename)
  }

  /** The header offsets the walk from `o` visits, up to the first offset
      that holds no header. */
  function Headers(a: seq<Byte>, o: nat): (hs: seq<nat>)
    ensures forall i :: 0 <= i < |hs| ==> IsHeader(a, hs[i])
    ensures |hs| > 0 <==> IsHeader(a, o)
    ensures |hs| > 0 ==> hs[0] == o
    ensures forall i :: 0 <= i < |hs| - 1 ==> IsHeader(a, hs[i]) && hs[i + 1] == NextHeader(a, hs[i])
    decreases if o <= |a| then |a| - o else 0
  {
    if !IsHeader(a, o) then [] else [o] + Headers(a, NextHeader(a, o))
  }

  /** The walk from `o`: the first header whose name matches, or `None`
      at the first offset without the magic. */
  function FindFrom(a: seq<Byte>, filename: seq<Byte>, o: nat): (r: Option<nat>)
    ensures r.Some? ==> IsHeader(a, r.value) && Matches(a, r.value, filename)
    ensures r.Some? ==> r.value >= o
    decreases if o <= |a| then |a| - o else 0
  {
    if !IsHeader(a, o) then None
    else if Matches(a, o, filename) then Some(o)
    else FindFrom(a, filename, NextHeader(a, o))
  }

  /** `Arc_FindFileInitramfs` as a value: `None` for a NULL archive or a
      NULL name, otherwise the walk from the start of the archive. */
  function Find(fs: Option<seq<Byte>>, filename: Option<seq<Byte>>): (r: Option<nat>)
    ensures fs.None? || filename.None? ==> r.None?
    ensures r.Some? ==> IsHeader(fs.value, r.value) && Matches(fs.value, r.value, filename.value)
  {
    if fs.None? || filename.None? then None else FindFrom(fs.value, filename.value, 0)
  }

  /** The first of the headers `hs` whose name matches `filename`. */
  function FirstMatching(a: seq<Byte>, hs: seq<nat>, filename: seq<Byte>): (r: Option<nat>)
    requires forall i :: 0 <= i < |hs| ==> hs[i] + HEADER_SIZE <= |a|
    ensures r.None? <==> forall i :: 0 <= i < |hs| ==> !Matches(a, hs[i], filename)
    ensures r.Some? ==>
      exists i :: 0 <= i < |hs| && hs[i] == r.value && Matches(a, hs[i], filename) &&
                  forall j :: 0 <= j < i ==> !Matches(a, hs[j], filename)
  {
    if |hs| == 0 then None
    else if Matches(a, hs[0], filename) then Some(hs[0])
    else
      var r := FirstMatching(a, hs[1..], filename);
      assert forall i :: 1 <= i < |hs| ==> hs[i] == hs[1..][i - 1];
      r
  }

  /** The walk returns the first header, in archive order, whose name
      matches. */
  lemma {:induction false} FindFromIsFirstMatch(a: seq<Byte>, filename: seq<Byte>, o: nat)
    ensures FindFrom(a, filename, o) == FirstMatching(a, Headers(a, o), filename)
    decreases if o <= |a| then |a| - o else 0
  {
    if IsHeader(a, o) && !Matches(a, o, filename) {
      var n := NextHeader(a, o);
      FindFromIsFirstMatch(a, filename, n);
      assert Headers(a, o)[1..] == Headers(a, n);
    }
  }

  /** `Arc_FindFileInitramfs`: walk the headers from the start of the
      archive while the magic is present and return the first one whose
      name equals `filename`. */
  method FindFileInitramfs(fs: Option<seq<Byte>>, filename: Option<seq<Byte>>) returns (r: Option<nat>)
    ensures r == Find(fs, filename)
  {
    if fs.None? || filename.None? {
      return None;
    }
    var archive := fs.value;
    var name := filename.value;
    var offset := 0;
    while IsHeader(archive, offset)
      invariant FindFrom(archive, name, offset) == Find(fs, filename)
      decreases if offset <= |archive| then |archive| - offset else 0
    {
      if NameAt(archive, offset) == CString(name) {
        return Some(offset);
      }
      offset := NextHeader(archive, offset);
    }
    return None;
  }

  /** `struct stat` as far as the driver fills it. */
  datatype Stat = Stat(
    uid: nat, gid: nat, mode: nat, dev: nat, ino: nat, nlink: nat, rdev: nat,
    size: nat, mtimeSec: nat, mtimeNsec: nat)

  /** What `initramfs_internal_stat` stores for a header: the padded data
      size, the modification time from its two halves, no nanoseconds, and
      the other fields as they are. */
  function StatOf(h: Header): (s: Stat)
    requires h.fileSizeHigh < 0x1_0000 && h.fileSizeLow < 0x1_0000
    requires h.modTimeLow < 0x1_0000
    ensures s.size % 2 == 0 && FileSize(h) <= s.size <= FileSize(h) + 1
    ensures s.mtimeNsec == 0
    ensures s.mtimeSec / 0x1_0000 == h.modTimeHigh && s.mtimeSec % 0x1_0000 == h.modTimeLow
    ensures (s.uid, s.gid, s.mode, s.dev, s.ino, s.nlink, s.rdev) ==
            (h.uid, h.gid, h.mode, h.device, h.inode, h.nlink, h.rdev)
  {
    Stat(h.uid, h.gid, h.mode, h.device, h.inode, h.nlink, h.rdev,
         DataSize(h), h.modTimeHigh * 0x1_0000 + h.modTimeLow, 0)
  }

  class StatBuf {
    var uid: nat
    var gid: nat
    var mode: nat
    var dev: nat
    var ino: nat
    var nlink: nat
    var rdev: nat
    var size: nat
    var mtimeSec: nat
    var mtimeNsec: nat

    constructor ()
    {
    }

    function View(): Stat
      reads this
    {
      Stat(uid, gid, mode, dev, ino, nlink, rdev, size, mtimeSec, mtimeNsec)
    }
  }

  /** `initramfs_internal_stat`: fill `stat` from the header at `o`. */
  method InternalStat(a: seq<Byte>, o: nat, stat: StatBuf) returns (r: int)
    requires o + HEADER_SIZE <= |a|
    modifies stat
    ensures r == 0
    ensures stat.View() == StatOf(HeaderAt(a, o))
  {
    var h := HeaderAt(a, o);
    stat.uid := h.uid;
    stat.gid := h.gid;
    stat.mode := h.mode;
    stat.dev := h.device;
    stat.ino := h.inode;
    stat.nlink := h.nlink;
    stat.rdev := h.rdev;
    stat.size := DataSize(h);
    stat.mtimeNsec := 0;
    stat.mtimeSec := h.modTimeHigh * 0x1_0000 + h.modTimeLow;
    return 0;
  }

  /** The driver's per-file state: the unpadded size, the header of the
      open file (`None` before a successful open), the current position
      and the stat record. */
  class VFSFile {
    var size: nat
    var address: Option<nat>
    var offset: int
    const stat: StatBuf

    constructor (stat: StatBuf)
      ensures this.stat == stat && address.None? && offset == 0 && size == 0
    {
      this.stat := stat;
      size := 0;
      address := None;
      offset := 0;
    }
  }

  /** A resource of the driver: the archive set up by `initramfs_init`
      and the file state. */
  class Resource {
    const driverState: Option<seq<Byte>>
    const vfsState: VFSFile

    constructor (driverState: Option<seq<Byte>>, vfsState: VFSFile)
      ensures this.driverState == driverState && this.vfsState == vfsState
    {
      this.driverState := driverState;
      this.vfsState := vfsState;
    }
  }

  /** `initramfs_open`. `permission` is what the permission check returns
      for `mode`; non-zero refuses with `EPERM`. A file that is not found
      returns 1; otherwise the file state takes the unpadded size, the
      header and its stat record. */
  method Open(res: Resource, path: Option<seq<Byte>>, flags: int, mode: nat, permission: int) returns (r: int)
    modifies res.vfsState, res.vfsState.stat
    ensures permission != 0 ==> r == EPERM
    ensures permission == 0 && Find(res.driverState, path).None? ==> r == 1
    ensures r != 0 ==> unchanged(res.vfsState) && unchanged(res.vfsState.stat)
    ensures permission == 0 && Find(res.driverState, path).Some? ==>
      var o := Find(res.driverState, path).value;
      var h := HeaderAt(res.driverState.value, o);
      && r == 0
      && res.vfsState.address == Some(o)
      && res.vfsState.size == FileSize(h)
      && res.vfsState.offset == old(res.vfsState.offset)
      && res.vfsState.stat.View() == StatOf(h)
  {
    if permission != 0 {
      return EPERM;
    }
    var spec := res.vfsState;
    var header := FindFileInitramfs(res.driverState, path);
    if header.None? {
      return 1;
    }
    var h := HeaderAt(res.driverState.value, header.value);
    spec.size := FileSize(h);
    spec.address := header;
    var _ := InternalStat(res.driverState.value, header.value, spec.stat);
    return 0;
  }

  /** The file's data lies inside the archive: a header at `o` whose
      unpadded data of `size` bytes ends within `a`. */
  predicate DataFits(a: seq<Byte>, o: nat, size: nat)
  {
    o + HEADER_SIZE <= |a| && o + DataOffset(HeaderAt(a, o)) + size <= |a|
  }

  /** Byte `i` of a read at position `offset` from data at `data`: the
      file's byte while the position lies inside the file, else 0. */
  function ReadByte(a: seq<Byte>, data: nat, size: nat, offset: int, i: nat): (b: Byte)
    requires data + size <= |a|
    ensures 0 <= offset + i < size ==> b == a[data + offset + i]
    ensures !(0 <= offset + i < size) ==> b == 0
  {
    if 0 <= offset + i < size then a[data + offset + i] else 0
  }

  /** The `n` bytes a read at position `offset` produces. */
  function ReadBytes(a: seq<Byte>, data: nat, size: nat, offset: int, n: nat): (r: seq<Byte>)
    requires data + size <= |a|
    ensures |r| == n
    ensures forall i :: 0 <= i < n ==> r[i] == ReadByte(a, data, size, offset, i)
  {
    seq(n, i requires 0 <= i < n => ReadByte(a, data, size, offset, i))
  }

  /** A read that stays inside the file returns the file's own bytes. */
  lemma ReadInside(a: seq<Byte>, data: nat, size: nat, offset: int, n: nat)
    requires data + size <= |a|
    requires 0 <= offset && offset + n <= size
    ensures ReadBytes(a, data, size, offset, n) == a[data + offset .. data + offset + n]
  {
    var r := ReadBytes(a, data, size, offset, n);
    forall i | 0 <= i < n
      ensures r[i] == a[data + offset .. data + offset + n][i]
    {
    }
  }

  /** A read that runs past the end returns the rest of the file followed
      by zeros. */
  lemma ReadPastEnd(a: seq<Byte>, data: nat, size: nat, offset: int, n: nat)
    requires data + size <= |a|
    requires 0 <= offset <= size < offset + n
    ensures ReadBytes(a, data, size, offset, n) ==
      a[data + offset .. data + size] + seq(offset + n - size, _ => 0)
  {
    var r := ReadBytes(a, data, size, offset, n);
    var e := a[data + offset .. data + size] + seq(offset + n - size, _ => 0);
    forall i | 0 <= i < n
      ensures r[i] == e[i]
    {
      if offset + i < size {
        assert e[i] == a[data + offset .. data + size][i];
      } else {
        assert e[i] == seq(offset + n - size, _ => 0)[i - (size - offset)];
      }
    }
  }

  /** `initramfs_read`: 0 and no write without an open file; otherwise
      `size * count` bytes from the current position, zero past the end of
      the file, and `count` as the result. The position does not move. */
  method Read(buffer: array<Byte>, size: nat, count: nat, res: Resource) returns (r: int)
    requires size * count <= buffer.Length
    requires res.vfsState.address.Some? ==>
      res.driverState.Some? && DataFits(res.driverState.value, res.vfsState.address.value, res.vfsState.size)
    modifies buffer
    ensures res.vfsState.address.None? ==> r == 0 && buffer[..] == old(buffer[..])
    ensures res.vfsState.address.Some? ==>
      var a := res.driverState.value;
      var o := res.vfsState.address.value;
      && r == count
      && buffer[..size * count] ==
           ReadBytes(a, o + DataOffset(HeaderAt(a, o)), res.vfsState.size, res.vfsState.offset, size * count)
      && buffer[size * count..] == old(buffer[size * count..])
  {
    var spec := res.vfsState;
    if spec.address == None {
      return 0;
    }
    var a := res.driverState.value;
    var header := HeaderAt(a, spec.address.value);
    var data := spec.address.value + DataOffset(header);
    var total := size * count;
    var i := 0;
    while i < total
      invariant 0 <= i <= total
      invariant buffer[..i] == ReadBytes(a, data, spec.size, spec.offset, i)
      invariant buffer[total..] == old(buffer[total..])
    {
      var value: Byte := 0;
      if 0 <= i + spec.offset < spec.size {
        value := a[data + spec.offset + i];
      }
      buffer[i] := value;
      assert buffer[..i + 1] == buffer[..i] + [value];
      i := i + 1;
    }
    return count;
  }

  /** `initramfs_write`: the file system is read-only. */
  method Write() returns (r: int)
    ensures r == 1
  {
    return 1;
  }

  datatype Whence = SeekSet | SeekCur | SeekEnd | SeekOther

  /** The position after a seek by `delta` from `cur` in a file of `size`
      bytes. */
  function SeekPosition(cur: int, size: nat, delta: int, whence: Whence): (r: int)
    ensures whence == SeekSet ==> r == delta
    ensures whence == SeekCur ==> r <= size && (r == cur + delta || r == size)
    ensures whence == SeekCur && cur + delta < size ==> r == cur + delta
    ensures whence == SeekEnd ==> r >= 0 && (r == size - delta - 1 || r == 0)
    ensures whence == SeekEnd && size - delta - 1 >= 0 ==> r == size - delta - 1
    ensures whence == SeekOther ==> r == cur
  {
    match whence
    case SeekSet => delta
    case SeekCur => if cur + delta >= size then size else cur + delta
    case SeekEnd => if size - delta - 1 < 0 then 0 else size - delta - 1
    case SeekOther => cur
  }

  /** A relative seek that does not go before the start keeps a position
      inside `[0, size]` there; a seek from the end by less than the size
      lands on a byte of the file. */
  lemma SeekStaysInFile(cur: int, size: nat, delta: int)
    requires 0 <= cur <= size
    ensures cur + delta >= 0 ==> 0 <= SeekPosition(cur, size, delta, SeekCur) <= size
    ensures 0 <= delta < size ==> 0 <= SeekPosition(cur, size, delta, SeekEnd) < size
  {
  }

  /** Reading after an absolute seek to a position inside the file returns
      the file's bytes from that position. */
  lemma ReadAfterSeekSet(a: seq<Byte>, data: nat, size: nat, cur: int, p: int, n: nat)
    requires data + size <= |a|
    requires 0 <= p && p + n <= size
    ensures ReadBytes(a, data, size, SeekPosition(cur, size, p, SeekSet), n) == a[data + p .. data + p + n]
  {
    ReadInside(a, data, size, p, n);
  }

  /** `initramfs_seek`: move the position and return 0. */
  method Seek(res: Resource, offset: int, whence: Whence) returns (r: int)
    modifies res.vfsState
    ensures r == 0
    ensures res.vfsState.offset == SeekPosition(old(res.vfsState.offset), res.vfsState.size, offset, whence)
    ensures res.vfsState.size == old(res.vfsState.size) && res.vfsState.address == old(res.vfsState.address)
  {
    var spec := res.vfsState;
    match whence
    case SeekSet =>
      spec.offset := offset;
      return 0;
    case SeekCur =>
      spec.offset := spec.offset + offset;
      if spec.offset >= spec.size {
        spec.offset := spec.size;
      }
      return 0;
    case SeekEnd =>
      spec.offset := spec.size - offset - 1;
      if spec.offset < 0 {
        spec.offset := 0;
      }
      return 0;
    case SeekOther =>
      return 0;
  }

  /** `initramfs_stat`: 1 for a NULL argument or a missing file, otherwise
      the result of filling `stat` from the file's header. */
  method StatFile(res: Resource?, filename: Option<seq<Byte>>, stat: StatBuf?) returns (r: int)
    modifies stat
    ensures res == null || filename.None? || stat == null ==> r == 1
    ensures res != null && stat != null && Find(res.driverState, filename).None? ==> r == 1
    ensures r != 0 ==> stat == null || unchanged(stat)
    ensures res != null && stat != null && Find(res.driverState, filename).Some? ==>
      r == 0 && stat.View() == StatOf(HeaderAt(res.driverState.value, Find(res.driverState, filename).value))
  {
    if res == null || filename.None? || stat == null {
      return 1;
    }
    var header := FindFileInitramfs(res.driverState, filename);
    if header.None? {
      return 1;
    }
    r := InternalStat(res.driverState.value, header.value, stat);
  }
}
