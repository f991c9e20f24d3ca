/** The user program of asgn1: its read and write loops over short transfers, and
    the round trips it makes through read, write and a mapping. */
module MmapTest {
  import opened Bytes
  import opened Pages
  import opened RamdiskSpec
  import opened Ramdisk

  const SIZE: nat := 65536

  // ----- what the loops amount to -----

  /** `buf` is `before` with the `n` bytes from `pos` on at its start, all of them there. */
  ghost predicate Fetched(buf: seq<byte>, before: seq<byte>, d: Disk, pos: nat, n: nat)
    requires DiskOk(d)
  {
    && |ReadAt(d, pos, n)| == n <= |before|
    && buf == Overwrite(before, 0, ReadAt(d, pos, n))
  }

  /** Reading on from where a full read stopped. */
  lemma FetchedMore(buf: seq<byte>, buf': seq<byte>, before: seq<byte>, d: Disk, pos: nat, m: nat, from: nat, n: nat)
    requires DiskOk(d) && Fetched(buf, before, d, pos, m) && from == pos + m
    requires
      var more := ReadAt(d, from, n);
      m + |more| <= |buf| && buf' == Overwrite(buf, m, more)
    ensures Fetched(buf', before, d, pos, m + |ReadAt(d, from, n)|)
  {
    var more := ReadAt(d, from, n);
    assert ReadAt(d, pos, m + |more|) == ReadAt(d, pos, m) + more;
    OverwriteAppend(before, 0, ReadAt(d, pos, m), more);
  }

  /** A read that returns nothing means there is nothing more to read. */
  lemma FetchedAll(d: Disk, pos: nat, m: nat, from: nat, n: nat, total: nat)
    requires DiskOk(d) && |ReadAt(d, pos, m)| == m <= total
    requires m < total ==> n > 0 && from == pos + m && ReadAt(d, from, n) == []
    ensures ReadAt(d, pos, total) == ReadAt(d, pos, m)
  {
  }

  /** `d'` is `d` after `data` has been written at `pos`, in one or several writes. */
  ghost predicate Landed(d: Disk, d': Disk, pos: nat, data: seq<byte>) {
    && |d.mem| <= |d'.mem|
    && (data != [] ==> pos + |data| <= |d'.mem|)
    && d'.dataSize == (if data == [] then d.dataSize else Max(d.dataSize, pos + |data|))
    && d'.nprocs == d.nprocs && d'.maxNprocs == d.maxNprocs
    && forall k {:trigger At(k)} | At(k) && 0 <= k < |d'.mem| ::
         if pos <= k < pos + |data| then d'.mem[k] == data[k - pos]
         else k < |d.mem| ==> d'.mem[k] == d.mem[k]
  }

  lemma WriteAtLands(d: Disk, pos: nat, data: seq<byte>, grown: seq<byte>)
    requires Grew(|d.mem|, pos + |data|, grown) && data != []
    ensures Landed(d, WriteAt(d, pos, data, grown).0, pos, data)
  {
  }

  lemma LandedMore(d: Disk, d': Disk, d'': Disk, pos: nat, data: seq<byte>, more: seq<byte>)
    requires Landed(d, d', pos, data) && Landed(d', d'', pos + |data|, more)
    ensures Landed(d, d'', pos, data + more)
  {
  }

  /** A full read of the place where `data` landed returns `data`. */
  lemma LandedReadsBack(d: Disk, d': Disk, pos: nat, data: seq<byte>)
    requires DiskOk(d') && Landed(d, d', pos, data)
    requires data == [] ==> pos <= d.dataSize
    ensures ReadAt(d', pos, |data|) == data
  {
    forall i | 0 <= i < |data|
      ensures pos + i < |d'.mem| && d'.mem[pos + i] == data[i]
    {
      assert At(pos + i);
    }
  }

  // ----- system calls: the kernel may shorten a transfer, or a signal may interrupt it -----

  const EINTR := 4

  /** The device has at most got new pages, each of them from the allocator. */
  twostate predicate OnlyGrows(dev: Device, alloc: Allocator)
    reads dev, alloc
  {
    && dev.numPages + alloc.left == old(dev.numPages) + old(alloc.left)
    && old(dev.memList) <= dev.memList
    && (forall k | |old(dev.memList)| <= k < |dev.memList| :: fresh(dev.memList[k]))
    && old(dev.listed) <= dev.listed && dev.freed == old(dev.freed)
  }

  method SysRead(dev: Device, file: OpenFile, ubuf: array<byte>, at: nat, nbyte: nat, signals: nat)
    returns (readSize: int, ghost n: nat)
    requires dev.Valid() && ubuf !in dev.memList && 0 < nbyte && at + nbyte <= ubuf.Length
    modifies file, ubuf
    ensures readSize < 0 ==> readSize == -EINTR && signals > 0
    ensures readSize < 0 ==> file.fPos == old(file.fPos) && ubuf[..] == old(ubuf[..])
    ensures readSize >= 0 ==>
      var out := ReadAt(dev.View(), old(file.fPos), n);
      && 1 <= n <= nbyte
      && readSize == |out|
      && file.fPos == old(file.fPos) + |out|
      && ubuf[..] == Overwrite(old(ubuf[..]), at, out)
  {
    n := 0;
    if signals > 0 {
      if * {
        return -EINTR, n;
      }
    }
    var m: nat :| 1 <= m <= nbyte;
    n := m;
    readSize := dev.Read(file, ubuf, at, m);
  }

  method SysWrite(dev: Device, file: OpenFile, buf: seq<byte>, at: nat, nbyte: nat, signals: nat,
                  alloc: Allocator)
    returns (writtenSize: int)
    requires dev.Valid() && 0 < nbyte && at + nbyte <= |buf|
    modifies dev, dev.memList, file, alloc
    ensures dev.Valid() && OnlyGrows(dev, alloc)
    ensures writtenSize == -EINTR || writtenSize == -ENOMEM || 1 <= writtenSize <= nbyte
    ensures writtenSize == -EINTR ==> signals > 0
    ensures writtenSize == -ENOMEM ==> (dev.numPages + alloc.left) * PAGE_SIZE < old(file.fPos) + nbyte
    ensures writtenSize > 0 ==> old(file.fPos) + writtenSize <= (dev.numPages + alloc.left) * PAGE_SIZE
    ensures writtenSize < 0 ==> file.fPos == old(file.fPos) && Landed(old(dev.View()), dev.View(), file.fPos, [])
    ensures writtenSize > 0 ==>
      && file.fPos == old(file.fPos) + writtenSize
      && Landed(old(dev.View()), dev.View(), old(file.fPos), buf[at..at + writtenSize])
  {
    if signals > 0 {
      if * {
        return -EINTR;
      }
    }
    var m: nat :| 1 <= m <= nbyte;
    ghost var d, pos, grown := dev.View(), file.fPos, [];
    writtenSize, grown := dev.Write(file, buf[at..at + m], alloc);
    if writtenSize > 0 {
      WriteAtLands(d, pos, buf[at..at + m], grown);
    }
  }

  // ----- the client's loops -----

  /** One round of the read loop: `at` bytes from `pos` on have been fetched before it, and
      `done` after it. */
  method FetchOn(dev: Device, file: OpenFile, ubuf: array<byte>, at: nat, nbyte: nat, signals: nat,
                 ghost before: seq<byte>, ghost pos: nat)
    returns (readSize: int, ghost m: nat, ghost done: nat)
    requires dev.Valid() && ubuf !in dev.memList && 0 < nbyte && at + nbyte <= ubuf.Length
    requires file.fPos == pos + at && Fetched(ubuf[..], before, dev.View(), pos, at)
    modifies file, ubuf
    ensures -EINTR <= readSize <= nbyte && (readSize < 0 ==> readSize == -EINTR && signals > 0)
    ensures done == at + Max(readSize, 0) && file.fPos == pos + done
    ensures Fetched(ubuf[..], before, dev.View(), pos, done)
    ensures readSize == 0 ==> m > 0 && ReadAt(dev.View(), old(file.fPos), m) == []
  {
    ghost var d, soFar, from := dev.View(), ubuf[..], file.fPos;
    readSize, m := SysRead(dev, file, ubuf, at, nbyte, signals);
    assert dev.View() == d;
    done := at;
    if readSize >= 0 {
      FetchedMore(soFar, ubuf[..], before, d, pos, at, from, m);
      done := at + |ReadAt(d, from, m)|;
    }
  }

  method MyFread(dev: Device, file: OpenFile, ubuf: array<byte>, nbyte: nat) returns (n: nat)
    requires dev.Valid() && ubuf !in dev.memList && nbyte <= ubuf.Length
    modifies file, ubuf
    ensures
      var out := ReadAt(dev.View(), old(file.fPos), nbyte);
      && n == |out|
      && file.fPos == old(file.fPos) + |out|
      && ubuf[..] == Overwrite(old(ubuf[..]), 0, out)
  {
    ghost var d, pos, before := dev.View(), file.fPos, ubuf[..];
    var at: nat, toReadSize: nat := 0, nbyte;
    var signals: nat := *;  // how often the call will be interrupted
    ghost var m: nat, from: nat, done: nat := 0, 0, 0;
    while toReadSize > 0
      invariant at + toReadSize == nbyte && done == at
      invariant dev.View() == d
      invariant file.fPos == pos + done
      invariant Fetched(ubuf[..], before, d, pos, done)
      decreases toReadSize, signals
    {
      var readSize;
      from := file.fPos;
      readSize, m, done := FetchOn(dev, file, ubuf, at, toReadSize, signals, before, pos);
      if readSize < 0 {
        signals := signals - 1;
      } else if readSize == 0 {
        break;
      } else {
        at := at + readSize;
        toReadSize := toReadSize - readSize;
      }
    }
    FetchedAll(d, pos, done, from, m, nbyte);
    n := nbyte - toReadSize;
  }

  /** One round of the write loop: `at` bytes of `buf` have landed before it, and `done`
      after it. */
  method WriteOn(dev: Device, file: OpenFile, buf: seq<byte>, at: nat, nbyte: nat, signals: nat,
                 alloc: Allocator, ghost d: Disk, ghost pos: nat)
    returns (writtenSize: int, ghost done: nat)
    requires dev.Valid() && 0 < nbyte && at + nbyte == |buf|
    requires file.fPos == pos + at && Landed(d, dev.View(), pos, buf[..at])
    modifies dev, dev.memList, file, alloc
    ensures dev.Valid() && OnlyGrows(dev, alloc)
    ensures writtenSize == -EINTR || writtenSize == -ENOMEM || 1 <= writtenSize <= nbyte
    ensures writtenSize == -EINTR ==> signals > 0
    ensures writtenSize == -ENOMEM ==> (dev.numPages + alloc.left) * PAGE_SIZE < pos + |buf|
    ensures writtenSize > 0 ==> file.fPos <= (dev.numPages + alloc.left) * PAGE_SIZE
    ensures done == at + Max(writtenSize, 0) <= |buf| && file.fPos == pos + done
    ensures Landed(d, dev.View(), pos, buf[..done])
  {
    ghost var d' := dev.View();
    writtenSize := SysWrite(dev, file, buf, at, nbyte, signals, alloc);
    done := at + Max(writtenSize, 0);
    ghost var more := buf[at..done];
    LandedMore(d, d', dev.View(), pos, buf[..at], more);
    assert buf[..at] + more == buf[..done];
  }

  /** The write loop: it ends with all of `buf` written, or at the first error that is not
      an interruption. */
  method WriteLoop(dev: Device, file: OpenFile, buf: seq<byte>, alloc: Allocator) returns (at: nat)
    requires dev.Valid()
    modifies dev, dev.memList, file, alloc
    ensures dev.Valid() && OnlyGrows(dev, alloc)
    ensures at <= |buf| && file.fPos == old(file.fPos) + at
    ensures Landed(old(dev.View()), dev.View(), old(file.fPos), buf[..at])
    ensures at > 0 ==> file.fPos <= (dev.numPages + alloc.left) * PAGE_SIZE
    ensures at < |buf| ==> (dev.numPages + alloc.left) * PAGE_SIZE < old(file.fPos) + |buf|
  {
    ghost var d, pos, done: nat := dev.View(), file.fPos, 0;
    var toWriteSize: nat := |buf|;
    at := 0;
    var signals: nat := *;  // how often the call will be interrupted
    while toWriteSize > 0
      invariant at + toWriteSize == |buf| && done == at
      invariant dev.Valid() && OnlyGrows(dev, alloc)
      invariant file.fPos == pos + done
      invariant Landed(d, dev.View(), pos, buf[..done])
      invariant at > 0 ==> file.fPos <= (dev.numPages + alloc.left) * PAGE_SIZE
      decreases toWriteSize, signals
    {
      var writtenSize;
      writtenSize, done := WriteOn(dev, file, buf, at, toWriteSize, signals, alloc, d, pos);
      if writtenSize >= 0 {
        at := at + writtenSize;
        toWriteSize := toWriteSize - writtenSize;
      } else if writtenSize == -EINTR {
        signals := signals - 1;
      } else {
        break;
      }
    }
  }

  /** Returns false where the program reports the error and exits: exactly if the pages
      held and the pages to be had are not enough for all of `buf`. */
  method MyFwrite(dev: Device, file: OpenFile, buf: seq<byte>, alloc: Allocator) returns (ok: bool)
    requires dev.Valid()
    modifies dev, dev.memList, file, alloc
    ensures dev.Valid() && OnlyGrows(dev, alloc)
    ensures ok <==> buf == [] || old(file.fPos) + |buf| <= (old(dev.numPages) + old(alloc.left)) * PAGE_SIZE
    ensures ok ==> file.fPos == old(file.fPos) + |buf|
    ensures ok ==> Landed(old(dev.View()), dev.View(), old(file.fPos), buf)
    ensures !ok ==>
      var n := file.fPos - old(file.fPos);
      0 <= n < |buf| && Landed(old(dev.View()), dev.View(), old(file.fPos), buf[..n])
  {
    var at := WriteLoop(dev, file, buf, alloc);
    assert buf[..|buf|] == buf;
    ok := at == |buf|;
  }

  /** A fresh buffer filled by one call of `MyFread`. */
  method ReadBack(dev: Device, file: OpenFile, nbyte: nat) returns (n: nat, ubuf: array<byte>)
    requires dev.Valid() && |ReadAt(dev.View(), file.fPos, nbyte)| == nbyte
    modifies file
    ensures fresh(ubuf) && n == nbyte
    ensures ubuf[..] == ReadAt(dev.View(), old(file.fPos), nbyte)
  {
    ubuf := new byte[nbyte];
    ghost var before := ubuf[..];
    n := MyFread(dev, file, ubuf, nbyte);
    OverwriteAll(before, ReadAt(dev.View(), old(file.fPos), nbyte));
  }

  /** What is written from the start of the disk is read back unchanged. */
  method RoundTrip(dev: Device, file: OpenFile, data: seq<byte>, alloc: Allocator)
    returns (ok: bool, n: nat, ubuf: array<byte>)
    requires dev.Valid() && file.fPos == 0
    modifies dev, dev.memList, file, alloc
    ensures dev.Valid() && OnlyGrows(dev, alloc)
    ensures ok <==> |data| <= (old(dev.numPages) + old(alloc.left)) * PAGE_SIZE
    ensures ok ==> n == |data| && ubuf[..] == data
  {
    ghost var d := dev.View();
    ok := MyFwrite(dev, file, data, alloc);
    if !ok {
      n, ubuf := 0, new byte[0];
      return;
    }
    LandedReadsBack(d, dev.View(), 0, data);
    var _ := dev.Lseek(file, 0, SeekSet);
    n, ubuf := ReadBack(dev, file, |data|);
  }

  // ----- the program itself -----

  datatype Outcome =
    | OpenFailed | WriteFailed | MmapFailed | ReadProblem | Miscompare | DividedByZero | IoctlFailed | Passed

  /** memcmp of a buffer and a mapped area. */
  method Memcmp(dev: Device, ubuf: array<byte>, mapping: map<nat, array<byte>>, len: nat) returns (equal: bool)
    requires dev.Valid() && dev.Maps(mapping, len)
    requires ubuf.Length == len <= |dev.View().mem|
    ensures equal <==> ubuf[..] == dev.View().mem[..len]
  {
    var i := 0;
    while i < len
      invariant i <= len
      invariant ubuf[..i] == dev.View().mem[..i]
    {
      dev.LoadAgreesWithRead(mapping, len, i);
      if ubuf[i] != mapping[i / PAGE_SIZE][i % PAGE_SIZE] {
        assert ubuf[..][i] != dev.View().mem[..len][i];
        return false;
      }
      i := i + 1;
    }
    assert ubuf[..] == ubuf[..len];
    equal := true;
  }

  /** Reading the start of the disk and comparing it with a mapping of it never
      finds a difference. */
  method ReadAndCompare(dev: Device, file: OpenFile, mapping: map<nat, array<byte>>, len: nat) returns (o: Outcome)
    requires dev.Valid() && dev.Maps(mapping, len)
    requires file.fPos == 0 && len <= dev.dataSize
    modifies file
    ensures o == Passed
  {
    var n, ubuf := ReadBack(dev, file, len);
    if n != len {
      return ReadProblem;
    }
    var equal := Memcmp(dev, ubuf, mapping, len);
    o := if equal then Passed else Miscompare;
  }

  /** Lines 109 to 135 of the program: fill the disk, map it, compare. */
  method WriteAndMap(dev: Device, file: OpenFile, data: seq<byte>, alloc: Allocator)
    returns (o: Outcome, mapping: map<nat, array<byte>>)
    requires dev.Valid() && file.fPos == 0
    modifies dev, dev.memList, file, alloc
    ensures dev.Valid() && OnlyGrows(dev, alloc)
    ensures o == if |data| <= (old(dev.numPages) + old(alloc.left)) * PAGE_SIZE then Passed else WriteFailed
    ensures o == Passed ==>
      && |data| <= dev.dataSize
      && dev.Maps(mapping, |data|)
      && ReadAt(dev.View(), 0, |data|) == data
  {
    ghost var d := dev.View();
    mapping := map[];
    var ok := MyFwrite(dev, file, data, alloc);
    if !ok {
      return WriteFailed, mapping;
    }
    ghost var d' := dev.View();
    LandedReadsBack(d, d', 0, data);
    var mapped;
    mapped, mapping := dev.Mmap(0, |data|);
    if mapped < 0 {
      return MmapFailed, mapping;
    }
    var _ := dev.Lseek(file, 0, SeekSet);
    o := ReadAndCompare(dev, file, mapping, |data|);
    assert dev.View() == d';
  }

  lemma ReadAtAfterStore(d: Disk, at: nat, b: byte, len: nat)
    requires DiskOk(d) && at < len <= d.dataSize
    ensures ReadAt(StoreAt(d, at, b), 0, len) == ReadAt(d, 0, len)[at := b]
  {
  }

  /** Lines 138 to 147: change one byte through the mapping, compare again. */
  method ModifyAndCompare(dev: Device, file: OpenFile, mapping: map<nat, array<byte>>, len: nat, j: nat, b: byte)
    returns (o: Outcome)
    requires dev.Valid() && dev.Maps(mapping, len)
    requires j < len <= dev.dataSize
    modifies dev.memList, file
    ensures dev.Valid()
    ensures |dev.View().mem| == |old(dev.View()).mem|
    ensures o == if j == 0 then DividedByZero else Passed
    ensures o == DividedByZero ==> dev.View() == old(dev.View())
    ensures o == Passed ==> ReadAt(dev.View(), 0, len) == ReadAt(old(dev.View()), 0, len)[j := b]
  {
    if j == 0 {
      return DividedByZero;
    }
    ReadAtAfterStore(dev.View(), j, b, len);
    dev.LoadAgreesWithRead(mapping, len, j);
    assert j / PAGE_SIZE * PAGE_SIZE < len;
    dev.StoreMapped(mapping, len, j, b);
    var _ := dev.Lseek(file, 0, SeekSet);
    o := ReadAndCompare(dev, file, mapping, len);
  }

  /** Lines 138 to 156: the second comparison, and the ioctl that raises the limit. */
  method ModifyAndFinish(dev: Device, file: OpenFile, mapping: map<nat, array<byte>>, r: nat, b: byte)
    returns (o: Outcome)
    requires dev.Valid() && dev.Maps(mapping, SIZE) && SIZE <= dev.dataSize
    modifies dev.memList, file, dev`maxNprocs
    ensures dev.Valid()
    ensures o == if r % 1024 == 0 then DividedByZero else Passed
    ensures o == DividedByZero ==> ReadAt(dev.View(), 0, SIZE) == ReadAt(old(dev.View()), 0, SIZE)
    ensures o == Passed ==>
      && ReadAt(dev.View(), 0, SIZE) == ReadAt(old(dev.View()), 0, SIZE)[r % 1024 * 64 := b]
      && dev.maxNprocs == 12345
  {
    o := ModifyAndCompare(dev, file, mapping, SIZE, r % 1024 * 64, b);
    if o != Passed {
      return;
    }
    var _ := dev.Lseek(file, 0, SeekSet);
    var result := dev.Ioctl(MYIOC_TYPE, SET_NPROC_OP, 12345);
    if result < 0 {
      o := IoctlFailed;
    }
  }

  /** The whole program. `data` and `r` are what random() returned, `b` is the byte it
      stores through the mapping. The SIZE macro is not parenthesised, so the position
      of that store is `random() % 1024 * 64`. */
  method RunProgram(dev: Device, data: seq<byte>, r: nat, b: byte, alloc: Allocator) returns (o: Outcome)
    requires dev.Valid() && |data| == SIZE
    modifies dev, dev.memList, alloc
    ensures dev.Valid() && OnlyGrows(dev, alloc)
    ensures o ==
      if old(dev.nprocs) >= old(dev.maxNprocs) then OpenFailed
      else if (old(dev.numPages) + old(alloc.left)) * PAGE_SIZE < SIZE then WriteFailed
      else if r % 1024 == 0 then DividedByZero
      else Passed
    ensures o == DividedByZero ==> ReadAt(dev.View(), 0, SIZE) == data
    ensures o == Passed ==>
      && ReadAt(dev.View(), 0, SIZE) == data[r % 1024 * 64 := b]
      && dev.maxNprocs == 12345
  {
    var fd := dev.Open(false);
    if fd < 0 {
      return OpenFailed;
    }
    var file := new OpenFile();
    var mapping;
    o, mapping := WriteAndMap(dev, file, data, alloc);
    if o != Passed {
      return;
    }
    o := ModifyAndFinish(dev, file, mapping, r, b);
  }
}
