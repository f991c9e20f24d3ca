/** The asgn1 driver: every entry point works on a list of pages in place and is
    proved to do to the flat disk what `RamdiskSpec` says. */
module Ramdisk {
  import opened Bytes
  import opened Pages
  import opened RamdiskSpec

  /** An open file: the kernel keeps one position per handle. */
  class OpenFile {
    var fPos: nat

    constructor ()
      ensures fPos == 0
    {
      fPos := 0;
    }
  }

  class Device {
    var memList: seq<array<byte>>
    var numPages: nat
    var dataSize: nat
    var nprocs: int
    var maxNprocs: int

    // every page ever put on the list and every page ever freed, in order
    ghost var listed: seq<array<byte>>
    ghost var freed: seq<array<byte>>

    ghost predicate Valid()
      reads this
    {
      && PageList(memList)
      && numPages == |memList|
      && dataSize <= numPages * PAGE_SIZE
      && listed == freed + memList
      && PageList(listed)
    }

    ghost function View(): (d: Disk)
      requires Valid()
      reads this, memList
      ensures DiskOk(d)
    {
      Disk(Flat(memList), dataSize, nprocs, maxNprocs)
    }

    constructor ()
      ensures Valid() && View() == FRESH_DISK
      ensures fresh(memList)
    {
      memList := [];
      numPages, dataSize := 0, 0;
      nprocs, maxNprocs := 0, 1;
      listed, freed := [], [];
    }

    method FreeMemoryPages()
      requires Valid()
      modifies this
      ensures Valid() && memList == []
      ensures View() == old(View()).(mem := [], dataSize := 0)
      ensures listed == old(listed) && freed == old(listed)
    {
      while memList != []
        invariant PageList(memList) && listed == freed + memList
        invariant listed == old(listed)
        invariant nprocs == old(nprocs) && maxNprocs == old(maxNprocs)
      {
        freed := freed + [memList[0]];
        memList := memList[1..];
      }
      dataSize := 0;
      numPages := 0;
    }

    method Open(writeOnly: bool) returns (r: int)
      requires Valid()
      modifies this
      ensures Valid()
      ensures (View(), r) == DoOpen(old(View()), writeOnly)
      ensures memList == if r == 0 && writeOnly then [] else old(memList)
      ensures listed == old(listed) && freed == if r == 0 && writeOnly then old(freed) + old(memList) else old(freed)
    {
      if nprocs >= maxNprocs {
        return -EBUSY;
      }
      nprocs := nprocs + 1;
      if writeOnly {
        FreeMemoryPages();
      }
      return 0;
    }

    method Release() returns (r: int)
      requires Valid()
      modifies this`nprocs
      ensures Valid()
      ensures View() == old(View()).(nprocs := old(nprocs) - 1) && r == 0
    {
      nprocs := nprocs - 1;
      r := 0;
    }

    /** The retry loop of a read inside page `i`: `sizeToCopy` bytes go to the user
        buffer and the position follows, however short the copies are. */
    method ReadFromPage(file: OpenFile, i: nat, ubuf: array<byte>, at: nat, sizeToCopy: nat)
      requires Valid() && i < |memList| && ubuf !in memList
      requires at + sizeToCopy <= ubuf.Length
      requires sizeToCopy > 0 ==> file.fPos / PAGE_SIZE == i && file.fPos % PAGE_SIZE + sizeToCopy <= PAGE_SIZE
      requires file.fPos + sizeToCopy <= |memList| * PAGE_SIZE
      modifies file, ubuf
      ensures file.fPos == old(file.fPos) + sizeToCopy
      ensures Holds(ubuf[..], old(ubuf[..]), at, Flat(memList), old(file.fPos), file.fPos)
    {
      ghost var pos, flat, before := file.fPos, Flat(memList), ubuf[..];
      var sizeRead: nat, left: nat := 0, sizeToCopy;
      var beginOffset := file.fPos % PAGE_SIZE;
      while left > 0
        invariant sizeRead + left == sizeToCopy
        invariant file.fPos == pos + sizeRead
        invariant left > 0 ==> file.fPos == i * PAGE_SIZE + beginOffset && beginOffset + left <= PAGE_SIZE
        invariant Holds(ubuf[..], before, at, flat, pos, file.fPos)
      {
        ghost var soFar := ubuf[..];
        var uncopied := CopyToUser(ubuf, at + sizeRead, memList, i, beginOffset, left);
        var copied := left - uncopied;
        HoldsMore(soFar, ubuf[..], before, at, flat, pos, file.fPos, copied);
        left := uncopied;
        sizeRead := sizeRead + copied;
        file.fPos := file.fPos + copied;
        if left > 0 {
          PagePosition(i, beginOffset + copied);
        }
        beginOffset := file.fPos % PAGE_SIZE;
      }
    }

    /** The page walk of a read of `total` bytes that are all there. */
    method ReadPages(file: OpenFile, ubuf: array<byte>, at: nat, total: nat) returns (sizeRead: nat)
      requires Valid() && ubuf !in memList
      requires at + total <= ubuf.Length && file.fPos + total <= |memList| * PAGE_SIZE
      modifies file, ubuf
      ensures sizeRead == total && file.fPos == old(file.fPos) + total
      ensures Holds(ubuf[..], old(ubuf[..]), at, Flat(memList), old(file.fPos), file.fPos)
    {
      ghost var pos, flat, before := file.fPos, Flat(memList), ubuf[..];
      var actualSize := total;
      sizeRead := 0;
      var beginPageNo := file.fPos / PAGE_SIZE;
      var currPageNo := 0;
      while currPageNo < |memList|
        invariant currPageNo <= |memList|
        invariant sizeRead == Reach(pos, total, currPageNo)
        invariant actualSize == total - sizeRead
        invariant file.fPos == pos + sizeRead
        invariant Holds(ubuf[..], before, at, flat, pos, file.fPos)
      {
        if currPageNo < beginPageNo {
          ReachBefore(pos, total, currPageNo);
        } else {
          ReachStep(pos, total, currPageNo);
          var beginOffset := file.fPos % PAGE_SIZE;
          var sizeToCopy := Min(actualSize, PAGE_SIZE - beginOffset);
          ghost var soFar := ubuf[..];
          ReadFromPage(file, currPageNo, ubuf, at + sizeRead, sizeToCopy);
          HoldsMore(soFar, ubuf[..], before, at, flat, pos, pos + sizeRead, sizeToCopy);
          actualSize := actualSize - sizeToCopy;
          sizeRead := sizeRead + sizeToCopy;
        }
        currPageNo := currPageNo + 1;
      }
    }

    method Read(file: OpenFile, ubuf: array<byte>, at: nat, count: nat) returns (sizeRead: nat)
      requires Valid()
      requires at + count <= ubuf.Length && ubuf !in memList
      modifies file, ubuf
      ensures Valid() && View() == old(View())
      ensures
        var out := ReadAt(View(), old(file.fPos), count);
        && sizeRead == |out|
        && file.fPos == old(file.fPos) + |out|
        && ubuf[..] == Overwrite(old(ubuf[..]), at, out)
    {
      if file.fPos > dataSize {
        return 0;
      }
      ghost var pos, before := file.fPos, ubuf[..];
      var actualSize := Min(count, dataSize - file.fPos);
      sizeRead := ReadPages(file, ubuf, at, actualSize);
      HoldsIsOverwrite(ubuf[..], before, at, Flat(memList), pos, file.fPos);
    }

    method Lseek(file: OpenFile, offset: int, whence: Whence) returns (testPos: int)
      requires Valid()
      modifies file
      ensures Valid() && View() == old(View())
      ensures file.fPos == testPos == SeekTo(old(file.fPos), |View().mem|, offset, whence)
    {
      testPos := 0;
      var bufferSize := numPages * PAGE_SIZE;
      match whence {
        case SeekSet => testPos := offset;
        case SeekCur => testPos := file.fPos + offset;
        case SeekEnd => testPos := bufferSize + offset;
        case SeekOther =>
      }
      if testPos < 0 {
        testPos := 0;
      }
      if testPos > bufferSize {
        testPos := bufferSize;
      }
      file.fPos := testPos;
    }

    method ListAddTail(page: array<byte>)
      requires Valid() && page !in listed && page.Length == PAGE_SIZE
      modifies this
      ensures Valid()
      ensures memList == old(memList) + [page]
      ensures listed == old(listed) + [page] && freed == old(freed)
      ensures View() == old(View()).(mem := old(View()).mem + page[..])
    {
      FlatOfAppend(memList, page);
      memList := memList + [page];
      listed := listed + [page];
      numPages := numPages + 1;
    }

    /** The allocation loop of a write. */
    method Allocate(need: nat, alloc: Allocator) returns (ok: bool, ghost grown: seq<byte>)
      requires Valid()
      modifies this, alloc
      ensures Valid()
      ensures ok <==> need <= (old(numPages) + old(alloc.left)) * PAGE_SIZE
      ensures Allotted(|old(View()).mem|, need, old(alloc.left), grown)
      ensures numPages + alloc.left == old(numPages) + old(alloc.left)
      ensures View() == old(View()).(mem := old(View()).mem + grown)
      ensures old(memList) <= memList && forall k | |old(memList)| <= k < |memList| :: fresh(memList[k])
      ensures old(listed) <= listed && freed == old(freed)
    {
      grown := [];
      while numPages * PAGE_SIZE < need
        invariant Valid()
        invariant Growth(|old(View()).mem|, need, grown)
        invariant numPages + alloc.left == old(numPages) + old(alloc.left)
        invariant View() == old(View()).(mem := old(View()).mem + grown)
        invariant old(memList) <= memList && forall k | |old(memList)| <= k < |memList| :: fresh(memList[k])
        invariant old(listed) <= listed && freed == old(freed)
        decreases need - numPages * PAGE_SIZE
      {
        var page := alloc.AllocPage();
        if page == null {
          return false, grown;
        }
        ListAddTail(page);
        grown := grown + page[..];
      }
      ok := true;
    }

    /** One copy_from_user of a write into page `i`: some of the `left` bytes of `ubuf` from
        `from` on follow those from `at` on, which have been stored at `pos`. */
    method StoreSome(file: OpenFile, i: nat, beginOffset: nat, ubuf: seq<byte>, from: nat, left: nat,
                     ghost before: seq<byte>, ghost pos: nat, ghost at: nat)
      returns (uncopied: nat)
      requires Valid() && i < |memList|
      requires 0 < left && beginOffset + left <= PAGE_SIZE && from + left <= |ubuf|
      requires file.fPos == i * PAGE_SIZE + beginOffset == pos + from - at
      requires Holds(Flat(memList), before, pos, ubuf, at, from)
      modifies file, memList[i]
      ensures uncopied < left
      ensures file.fPos == old(file.fPos) + left - uncopied
      ensures Holds(Flat(memList), before, pos, ubuf, at, from + left - uncopied)
    {
      ghost var soFar := Flat(memList);
      uncopied := CopyFromUser(memList, i, beginOffset, ubuf, from, left);
      HoldsMore(soFar, Flat(memList), before, pos, ubuf, at, from, left - uncopied);
      file.fPos := file.fPos + left - uncopied;
    }

    /** The retry loop of a write inside page `i`: the bytes of `ubuf` from `at` on. */
    method WriteToPage(file: OpenFile, i: nat, ubuf: seq<byte>, at: nat, sizeToCopy: nat)
      requires Valid() && i < |memList|
      requires at + sizeToCopy <= |ubuf|
      requires sizeToCopy > 0 ==> file.fPos / PAGE_SIZE == i && file.fPos % PAGE_SIZE + sizeToCopy <= PAGE_SIZE
      requires file.fPos + sizeToCopy <= |memList| * PAGE_SIZE
      modifies file, memList[i]
      ensures file.fPos == old(file.fPos) + sizeToCopy
      ensures Holds(Flat(memList), old(Flat(memList)), old(file.fPos), ubuf, at, at + sizeToCopy)
    {
      ghost var pos, before := file.fPos, Flat(memList);
      var sizeWritten: nat, left: nat := 0, sizeToCopy;
      var beginOffset := file.fPos % PAGE_SIZE;
      while left > 0
        invariant sizeWritten + left == sizeToCopy
        invariant file.fPos == pos + sizeWritten
        invariant left > 0 ==> file.fPos == i * PAGE_SIZE + beginOffset && beginOffset + left <= PAGE_SIZE
        invariant Holds(Flat(memList), before, pos, ubuf, at, at + sizeWritten)
      {
        var uncopied := StoreSome(file, i, beginOffset, ubuf, at + sizeWritten, left, before, pos, at);
        sizeWritten := sizeWritten + left - uncopied;
        if uncopied > 0 {
          PagePosition(i, beginOffset + left - uncopied);
        }
        left := uncopied;
        beginOffset := file.fPos % PAGE_SIZE;
      }
    }

    /** The body of the page walk of a write from `pos` on, at a page it does not skip. */
    method WritePage(file: OpenFile, i: nat, ubuf: seq<byte>, count: nat, sizeWritten: nat,
                     ghost pos: nat, ghost before: seq<byte>)
      returns (sizeToCopy: nat)
      requires Valid() && pos / PAGE_SIZE <= i < |memList| && pos + |ubuf| <= |memList| * PAGE_SIZE
      requires sizeWritten == Reach(pos, |ubuf|, i) && count == |ubuf| - sizeWritten
      requires file.fPos == pos + sizeWritten
      requires Holds(Flat(memList), before, pos, ubuf, 0, sizeWritten)
      modifies file, memList[i]
      ensures sizeToCopy <= count && sizeWritten + sizeToCopy == Reach(pos, |ubuf|, i + 1)
      ensures file.fPos == pos + sizeWritten + sizeToCopy
      ensures Holds(Flat(memList), before, pos, ubuf, 0, sizeWritten + sizeToCopy)
    {
      ReachStep(pos, |ubuf|, i);
      var beginOffset := file.fPos % PAGE_SIZE;
      sizeToCopy := Min(count, PAGE_SIZE - beginOffset);
      ghost var soFar := Flat(memList);
      WriteToPage(file, i, ubuf, sizeWritten, sizeToCopy);
      HoldsMore(soFar, Flat(memList), before, pos, ubuf, 0, sizeWritten, sizeToCopy);
    }

    /** The page walk of a write, once every page it needs is on the list. */
    method WritePages(file: OpenFile, ubuf: seq<byte>) returns (sizeWritten: nat)
      requires Valid() && file.fPos + |ubuf| <= |memList| * PAGE_SIZE
      modifies memList, file
      ensures Valid()
      ensures sizeWritten == |ubuf| && file.fPos == old(file.fPos) + |ubuf|
      ensures Holds(Flat(memList), old(Flat(memList)), old(file.fPos), ubuf, 0, |ubuf|)
    {
      ghost var pos, before := file.fPos, Flat(memList);
      var count := |ubuf|;
      sizeWritten := 0;
      var beginPageNo := file.fPos / PAGE_SIZE;
      var currPageNo := 0;
      while currPageNo < |memList|
        invariant currPageNo <= |memList|
        invariant sizeWritten == Reach(pos, |ubuf|, currPageNo)
        invariant count == |ubuf| - sizeWritten
        invariant file.fPos == pos + sizeWritten
        invariant Holds(Flat(memList), before, pos, ubuf, 0, sizeWritten)
      {
        if currPageNo < beginPageNo {
          ReachBefore(pos, |ubuf|, currPageNo);
        } else {
          var sizeToCopy := WritePage(file, currPageNo, ubuf, count, sizeWritten, pos, before);
          count := count - sizeToCopy;
          sizeWritten := sizeWritten + sizeToCopy;
        }
        currPageNo := currPageNo + 1;
      }
    }

    method Write(file: OpenFile, ubuf: seq<byte>, alloc: Allocator) returns (r: int, ghost grown: seq<byte>)
      requires Valid()
      modifies this, memList, file, alloc
      ensures Valid()
      ensures r == if old(file.fPos) + |ubuf| <= (old(numPages) + old(alloc.left)) * PAGE_SIZE then |ubuf| else -ENOMEM
      ensures Allotted(|old(View()).mem|, old(file.fPos) + |ubuf|, old(alloc.left), grown)
      ensures numPages + alloc.left == old(numPages) + old(alloc.left)
      ensures (View(), r) == WriteAt(old(View()), old(file.fPos), ubuf, grown)
      ensures file.fPos == old(file.fPos) + Max(r, 0)
      ensures old(memList) <= memList
      ensures forall k | |old(memList)| <= k < |memList| :: fresh(memList[k])
      ensures old(listed) <= listed && freed == old(freed)
    {
      ghost var d := View();
      var origFPos := file.fPos;
      var ok;
      ok, grown := Allocate(origFPos + |ubuf|, alloc);
      if !ok {
        return -ENOMEM, grown;
      }
      var sizeWritten := WritePages(file, ubuf);
      assert ubuf[0..|ubuf|] == ubuf;
      HoldsIsOverwrite(Flat(memList), d.mem + grown, origFPos, ubuf, 0, |ubuf|);
      dataSize := Max(dataSize, origFPos + sizeWritten);
      r := sizeWritten;
    }

    method Ioctl(iocType: char, nr: int, newNprocs: int) returns (r: int)
      requires Valid()
      modifies this`maxNprocs
      ensures Valid()
      ensures (View(), r) == DoIoctl(old(View()), iocType, nr, newNprocs)
    {
      if iocType != MYIOC_TYPE {
        return -EINVAL;
      }
      if nr == SET_NPROC_OP {
        if newNprocs <= 0 {
          return -EINVAL;
        }
        maxNprocs := newNprocs;
        return 0;
      }
      return -ENOTTY;
    }

    /** `mapping` shows the first `len` bytes of the disk. */
    ghost predicate Maps(mapping: map<nat, array<byte>>, len: nat)
      reads this
    {
      forall i: nat | i * PAGE_SIZE < len :: i in mapping && i < |memList| && mapping[i] == memList[i]
    }

    /** Maps list pages into an area of `len` bytes; `mapping` gives the page behind
        each page of the area. */
    method Mmap(vmPgoff: nat, len: nat) returns (r: int, mapping: map<nat, array<byte>>)
      requires Valid()
      ensures r == DoMmap(View(), vmPgoff, len)
      ensures
        var table := MapTable(numPages, vmPgoff, len);
        && mapping.Keys == table.Keys
        && forall i | i in mapping :: table[i] < |memList| && mapping[i] == memList[table[i]]
      ensures r == 0 && vmPgoff == 0 ==> Maps(mapping, len)
    {
      mapping := map[];
      var offset := vmPgoff * PAGE_SIZE;
      if len > numPages * PAGE_SIZE {
        return -EINVAL, mapping;
      }
      if offset > numPages {
        return -EINVAL, mapping;
      }
      var index := 0;
      while index < |memList|
        invariant index <= |memList|
        invariant forall i: nat :: i in mapping <==> i < index && MapsPage(numPages, vmPgoff, len, i)
        invariant forall i | i in mapping :: i < |memList| && mapping[i] == memList[i]
      {
        if index >= offset && index * PAGE_SIZE < len {
          mapping := mapping[index := memList[index]];
        }
        index := index + 1;
      }
      r := 0;
    }

    /** A load through a mapping sees the byte a read at that position returns. */
    lemma LoadAgreesWithRead(mapping: map<nat, array<byte>>, len: nat, at: nat)
      requires Valid() && Maps(mapping, len) && at < len
      ensures at / PAGE_SIZE in mapping && mapping[at / PAGE_SIZE].Length == PAGE_SIZE
      ensures at < |View().mem| && mapping[at / PAGE_SIZE][at % PAGE_SIZE] == View().mem[at]
      ensures at < dataSize ==> ReadAt(View(), at, 1) == [mapping[at / PAGE_SIZE][at % PAGE_SIZE]]
    {
      assert at / PAGE_SIZE * PAGE_SIZE < len;
      FlatAt(memList, at / PAGE_SIZE, at % PAGE_SIZE);
    }

    /** A store through a mapping is a store into the disk. */
    method StoreMapped(mapping: map<nat, array<byte>>, ghost len: nat, at: nat, b: byte)
      requires Valid() && Maps(mapping, len) && at < len
      requires at / PAGE_SIZE in mapping && mapping[at / PAGE_SIZE] in memList
      modifies mapping[at / PAGE_SIZE]
      ensures Valid() && at < |old(View()).mem|
      ensures View() == StoreAt(old(View()), at, b)
    {
      LoadAgreesWithRead(mapping, len, at);
      ghost var before := Flat(memList);
      assert at / PAGE_SIZE * PAGE_SIZE < len;
      MemcpyToPage(memList, at / PAGE_SIZE, at % PAGE_SIZE, [b], 0, 1);
      HoldsIsOverwrite(Flat(memList), before, at, [b], 0, 1);
      assert Overwrite(before, at, [b][0..1]) == before[at := b];
    }
  }
}
