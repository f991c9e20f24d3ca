/** The virtual ramdisk of asgn1 as a value: a flat byte array that grows by
    whole pages, the number of bytes in use, and the process counters. */
module RamdiskSpec {
  import opened Bytes
  import opened Pages

  const ENOMEM := 12
  const EBUSY := 16
  const EINVAL := 22
  const ENOTTY := 25

  const SET_NPROC_OP := 1
  const MYIOC_TYPE := 'k'

  datatype Whence = SeekSet | SeekCur | SeekEnd | SeekOther

  datatype Disk = Disk(mem: seq<byte>, dataSize: nat, nprocs: int, maxNprocs: int)

  const FRESH_DISK := Disk([], 0, 0, 1)

  ghost predicate DiskOk(d: Disk) {
    && |d.mem| % PAGE_SIZE == 0
    && d.dataSize <= |d.mem|
  }

  function DoOpen(d: Disk, writeOnly: bool): (Disk, int) {
    if d.nprocs >= d.maxNprocs then (d, -EBUSY)
    else if writeOnly then (d.(mem := [], dataSize := 0, nprocs := d.nprocs + 1), 0)
    else (d.(nprocs := d.nprocs + 1), 0)
  }

  /** The bytes a read at `pos` delivers. */
  function ReadAt(d: Disk, pos: nat, count: nat): (out: seq<byte>)
    requires d.dataSize <= |d.mem|
    ensures pos <= d.dataSize ==> |out| == Min(count, d.dataSize - pos)
    ensures forall i | 0 <= i < |out| :: pos + i < d.dataSize && out[i] == d.mem[pos + i]
  {
    if pos > d.dataSize then [] else d.mem[pos..pos + Min(count, d.dataSize - pos)]
  }

  /** Whether the allocation loop obtained every page it asked for. */
  predicate Grew(have: nat, need: nat, grown: seq<byte>) {
    have + |grown| >= need
  }

  /** A write of `data` at `pos`, when the allocator hands out `grown`. */
  function WriteAt(d: Disk, pos: nat, data: seq<byte>, grown: seq<byte>): (Disk, int) {
    if !Grew(|d.mem|, pos + |data|, grown) then
      (d.(mem := d.mem + grown), -ENOMEM)
    else
      (d.(mem := Overwrite(d.mem + grown, pos, data), dataSize := Max(d.dataSize, pos + |data|)), |data|)
  }

  /** A write that succeeds changes the bytes it covers to the user's and no others, and
      the size to the furthest end; every read sees exactly that. */
  lemma ReadAfterWrite(d: Disk, pos: nat, data: seq<byte>, grown: seq<byte>, from: nat, count: nat)
    requires DiskOk(d) && Growth(|d.mem|, pos + |data|, grown) && Grew(|d.mem|, pos + |data|, grown)
    ensures
      var d' := WriteAt(d, pos, data, grown).0;
      && DiskOk(d')
      && d'.dataSize == Max(d.dataSize, pos + |data|)
      && var out := ReadAt(d', from, count);
      && |out| == Max(0, Min(count, d'.dataSize - from))
      && forall i | 0 <= i < |out| ::
           if pos <= from + i < pos + |data| then out[i] == data[from + i - pos]
           else from + i < |d.mem| ==> out[i] == d.mem[from + i]
  {
    var d' := WriteAt(d, pos, data, grown).0;
    var out := ReadAt(d', from, count);
    forall i | 0 <= i < |out|
      ensures out[i] == d'.mem[from + i]
      ensures
        if pos <= from + i < pos + |data| then out[i] == data[from + i - pos]
        else from + i < |d.mem| ==> out[i] == d.mem[from + i]
    {
      assert out[i] == d'.mem[from + i];
    }
  }

  /** A write that is refused a page keeps the size and every byte there was. */
  lemma ReadAfterFailedWrite(d: Disk, pos: nat, data: seq<byte>, grown: seq<byte>, from: nat, count: nat)
    requires DiskOk(d) && Growth(|d.mem|, pos + |data|, grown) && !Grew(|d.mem|, pos + |data|, grown)
    ensures
      var (d', r) := WriteAt(d, pos, data, grown);
      && r == -ENOMEM && DiskOk(d') && d'.dataSize == d.dataSize
      && ReadAt(d', from, count) == ReadAt(d, from, count)
  {
    if from <= d.dataSize {
      var n := Min(count, d.dataSize - from);
      assert (d.mem + grown)[from..from + n] == d.mem[from..from + n];
    }
  }

  /** A write that is refused a page after it was given those of `first`, and tried again
      when there are those of `rest`, comes to one write that is given all of them. */
  lemma WriteTriedAgain(d: Disk, pos: nat, data: seq<byte>, first: seq<byte>, rest: seq<byte>)
    requires !Grew(|d.mem|, pos + |data|, first)
    ensures WriteAt(WriteAt(d, pos, data, first).0, pos, data, rest) == WriteAt(d, pos, data, first + rest)
  {
    assert d.mem + first + rest == d.mem + (first + rest);
  }

  /** The position a seek asks for. */
  function SeekTarget(pos: nat, size: nat, offset: int, whence: Whence): int {
    match whence
    case SeekSet => offset
    case SeekCur => pos + offset
    case SeekEnd => size + offset
    case SeekOther => 0
  }

  /** The position a seek ends at. */
  function SeekTo(pos: nat, size: nat, offset: int, whence: Whence): (p: nat)
    ensures p <= size
  {
    Min(Max(SeekTarget(pos, size, offset, whence), 0), size)
  }

  /** Where each kind of seek ends: at the offset, that far from the position, or that far
      from the end of the pages held; at the nearer end of the disk if that is not on it. */
  lemma SeekExactly(pos: nat, size: nat, offset: int)
    ensures SeekTo(pos, size, offset, SeekSet) == if offset < 0 then 0 else if offset <= size then offset else size
    ensures SeekTo(pos, size, offset, SeekCur) ==
      if pos + offset < 0 then 0 else if pos + offset <= size then pos + offset else size
    ensures SeekTo(pos, size, offset, SeekEnd) ==
      if size + offset < 0 then 0 else if offset <= 0 then size + offset else size
    ensures SeekTo(pos, size, offset, SeekOther) == 0
  {
  }

  function Distance(a: int, b: int): nat {
    if a < b then b - a else a - b
  }

  /** No position on the disk is nearer to what was asked for. */
  lemma SeekIsNearest(pos: nat, size: nat, offset: int, whence: Whence, q: nat)
    requires q <= size
    ensures
      var target := SeekTarget(pos, size, offset, whence);
      Distance(SeekTo(pos, size, offset, whence), target) <= Distance(q, target)
  {
  }

  /** A store through a mapping of the disk's pages. */
  function StoreAt(d: Disk, at: nat, b: byte): Disk
    requires at < |d.mem|
  {
    d.(mem := d.mem[at := b])
  }

  function DoIoctl(d: Disk, iocType: char, nr: int, newNprocs: int): (Disk, int) {
    if iocType != MYIOC_TYPE then (d, -EINVAL)
    else if nr != SET_NPROC_OP then (d, -ENOTTY)
    else if newNprocs <= 0 then (d, -EINVAL)
    else (d.(maxNprocs := newNprocs), 0)
  }

  // ----- mapping the disk into user space -----

  /** The two checks of mmap; the byte offset is compared with a number of pages. */
  predicate MmapAccepted(numPages: nat, pgoff: nat, len: nat) {
    len <= numPages * PAGE_SIZE && pgoff * PAGE_SIZE <= numPages
  }

  function DoMmap(d: Disk, pgoff: nat, len: nat): int {
    if MmapAccepted(|d.mem| / PAGE_SIZE, pgoff, len) then 0 else -EINVAL
  }

  /** Whether list page `i` is mapped; it then lies at page `i` of the user's area. */
  predicate MapsPage(numPages: nat, pgoff: nat, len: nat, i: nat) {
    pgoff * PAGE_SIZE <= i < numPages && i * PAGE_SIZE < len
  }

  /** The page of the list shown by each page of the user's area. */
  function MapTable(numPages: nat, pgoff: nat, len: nat): map<nat, nat> {
    if MmapAccepted(numPages, pgoff, len) then
      map i: nat | i < numPages && MapsPage(numPages, pgoff, len, i) :: i
    else
      map[]
  }

  /** What a caller of mmap asks for: that the request is accepted and every page `i` of
      the area shows page `pgoff + i` of the disk. */
  ghost predicate MmapServes(numPages: nat, pgoff: nat, len: nat) {
    && MmapAccepted(numPages, pgoff, len)
    && var m := MapTable(numPages, pgoff, len);
    forall i: nat | i * PAGE_SIZE < len :: i in m && m[i] == pgoff + i
  }

  /** Of all requests, those that fit and start at page 0 are served, and empty ones whose
      byte offset does not exceed the number of pages, but no others. */
  lemma MmapServesExactly(numPages: nat, pgoff: nat, len: nat)
    ensures MmapServes(numPages, pgoff, len) <==>
      len <= numPages * PAGE_SIZE && (pgoff == 0 || (len == 0 && pgoff * PAGE_SIZE <= numPages))
  {
    if pgoff > 0 && len > 0 {
      assert 0 * PAGE_SIZE < len && 0 !in MapTable(numPages, pgoff, len);
    } else if MmapAccepted(numPages, pgoff, len) {
      forall i: nat | i * PAGE_SIZE < len
        ensures i in MapTable(numPages, pgoff, len)
      {
        assert MapsPage(numPages, pgoff, len, i);
      }
    }
  }

  /** No request maps a page outside the area, or one that the disk does not have, or shows
      one elsewhere than at its own place. */
  lemma MapsInsideArea(numPages: nat, pgoff: nat, len: nat, i: nat)
    requires i in MapTable(numPages, pgoff, len)
    ensures i * PAGE_SIZE < len && pgoff * PAGE_SIZE <= i < numPages
    ensures MapTable(numPages, pgoff, len)[i] == i
  {
  }

  /** So a request for a stretch that the disk has, but that does not start at its start,
      is never served: it is refused, or the start of the area is left empty. */
  lemma MmapElsewhereFails(numPages: nat, pgoff: nat, len: nat)
    requires pgoff * PAGE_SIZE + len <= numPages * PAGE_SIZE && pgoff > 0 && len > 0
    ensures !MmapServes(numPages, pgoff, len)
    ensures 0 !in MapTable(numPages, pgoff, len)
  {
    MmapServesExactly(numPages, pgoff, len);
  }

  /** The second page of a disk of 2 pages is refused; with 4096 pages it is accepted and
      the area stays empty. */
  lemma MmapSecondPage()
    ensures !MmapAccepted(2, 1, PAGE_SIZE)
    ensures MmapAccepted(4096, 1, PAGE_SIZE) && MapTable(4096, 1, PAGE_SIZE) == map[]
  {
    assert MapTable(4096, 1, PAGE_SIZE).Keys == {};
  }
}
