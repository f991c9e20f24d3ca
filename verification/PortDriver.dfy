/** The asgn2 driver: the handler, the tasklet and the reader work on a ring and a list
    of pages in place, and are proved to do what `PortSpec` says, also in states in which
    that is not what is wanted. */
module PortDriver {
  import opened Bytes
  import opened Pages
  import opened Gpio
  import opened PortSpec
  import opened PortWalk

  class Driver {
    const buf: array<byte>
    var head: nat
    var tail: nat

    var memList: seq<array<byte>>
    var numPages: nat
    var dataSize: nat
    var headIndex: int
    var tailIndex: int
    var headOffset: nat
    var tailOffset: nat

    var halfByte: byte
    var sigFlag: bool
    var scheduled: bool
    var nullFlag: bool
    var waitFlag: bool
    var nullLocation: int
    var nprocs: int

    // every page ever put on the list and every page ever freed, in order
    ghost var listed: seq<array<byte>>
    ghost var freed: seq<array<byte>>

    ghost predicate Valid()
      reads this
    {
      && buf.Length == BUF_SIZE && head < BUF_SIZE && tail < BUF_SIZE
      && PageList(memList) && buf !in memList
      && numPages == |memList|
      && headIndex == 0 && headOffset <= PAGE_SIZE && tailOffset < PAGE_SIZE && nullLocation < PAGE_SIZE
      && (scheduled ==> CircCnt(tail, head) > 0)
      && listed == freed + memList
      && PageList(listed)
    }

    ghost function View(): (p: Port)
      requires Valid()
      reads this, memList, buf
      ensures Wf(p)
    {
      Port(Ring(buf[..], head, tail),
           Queue(Flat(memList), dataSize, headIndex, tailIndex, headOffset, tailOffset),
           halfByte, sigFlag, scheduled, nullFlag, waitFlag, nullLocation, nprocs)
    }

    constructor ()
      ensures Valid() && Fresh(View())
      ensures fresh(buf) && memList == []
    {
      buf := new byte[BUF_SIZE];
      head, tail := 0, 0;
      memList := [];
      numPages, dataSize := 0, 0;
      headIndex, tailIndex, headOffset, tailOffset := 0, 0, 0, 0;
      halfByte, sigFlag, scheduled := 0, true, false;
      nullFlag, waitFlag, nullLocation, nprocs := false, true, -1, 0;
      listed, freed := [], [];
    }

    ghost function RingView(): Ring
      reads this, buf
    {
      Ring(buf[..], head, tail)
    }

    /** The byte is complete: it goes into the ring, and the tasklet is scheduled, if
        there is room; a separator is written in any case. */
    method Enqueue()
      requires Valid()
      modifies this`tail, this`scheduled, buf
      ensures Valid()
      ensures RingView() == Put(old(RingView()), halfByte)
      ensures scheduled == (old(scheduled) || CircSpace(old(tail), head) > 0)
      ensures Flat(memList) == old(Flat(memList))
    {
      PutCount(RingView(), halfByte);
      if CircSpace(tail, head) > 0 {
        buf[tail] := halfByte;
        tail := (tail + 1) % BUF_SIZE;
        scheduled := true;
      } else if halfByte == 0 {
        buf[tail] := halfByte;
      }
      assert RingView() == Put(old(RingView()), halfByte);
    }

    /** What the handler does with the half-byte it has read. */
    method TakeHalf(nibble: byte)
      requires Valid()
      modifies this`halfByte, this`sigFlag, this`tail, this`scheduled, buf
      ensures Valid()
      ensures View() == HalfTaken(old(View()), nibble)
    {
      ghost var p := View();
      if sigFlag {
        halfByte := nibble << 4;
        sigFlag := false;
      } else {
        halfByte := halfByte | nibble;
        sigFlag := true;
        Enqueue();
        assert View().queue == p.queue;
      }
    }

    method DummyportInterrupt(pins: bv32)
      requires Valid()
      modifies this`halfByte, this`sigFlag, this`tail, this`scheduled, buf
      ensures Valid()
      ensures View() == Interrupt(old(View()), pins)
    {
      var nibble := ReadHalfByte(pins);
      TakeHalf(nibble);
    }

    method FreeMemoryPages()
      requires Valid()
      modifies this
      ensures Valid() && memList == []
      ensures listed == old(listed) && freed == old(listed)
      ensures View() == old(View()).(queue := old(View()).queue.(mem := [], dataSize := 0))
    {
      while memList != []
        invariant PageList(memList) && listed == freed + memList
        invariant unchanged(this`listed, this`head, this`tail, this`headIndex, this`tailIndex, this`headOffset)
        invariant unchanged(this`tailOffset, this`halfByte, this`sigFlag, this`scheduled, this`nullFlag)
        invariant unchanged(this`waitFlag, this`nullLocation, this`nprocs)
      {
        freed := freed + [memList[0]];
        memList := memList[1..];
      }
      dataSize := 0;
      numPages := 0;
    }

    // ----- the tasklet -----

    method ListAddTail(page: array<byte>)
      requires Valid() && page !in listed && page != buf && page.Length == PAGE_SIZE
      modifies this`memList, this`listed, this`numPages
      ensures Valid()
      ensures memList == old(memList) + [page]
      ensures Flat(memList) == old(Flat(memList)) + page[..]
    {
      FlatOfAppend(memList, page);
      memList := memList + [page];
      listed := listed + [page];
      numPages := numPages + 1;
    }

    method Allocate(need: nat, alloc: Allocator) returns (ok: bool, ghost grown: seq<byte>)
      requires Valid()
      modifies this`memList, this`listed, this`numPages, alloc
      ensures Valid()
      ensures ok <==> need <= (old(numPages) + old(alloc.left)) * PAGE_SIZE
      ensures Allotted(|old(Flat(memList))|, need, old(alloc.left), grown)
      ensures numPages + alloc.left == old(numPages) + old(alloc.left)
      ensures Flat(memList) == old(Flat(memList)) + grown
      ensures old(memList) <= memList
      ensures forall k | |old(memList)| <= k < |memList| :: fresh(memList[k])
    {
      grown := [];
      while numPages * PAGE_SIZE < need
        invariant Valid()
        invariant Growth(|old(Flat(memList))|, need, grown)
        invariant numPages + alloc.left == old(numPages) + old(alloc.left)
        invariant Flat(memList) == old(Flat(memList)) + grown
        invariant old(memList) <= memList
        invariant forall k | |old(memList)| <= k < |memList| :: fresh(memList[k])
        decreases need - numPages * PAGE_SIZE
      {
        var page := alloc.AllocPage();
        if page == null {
          return false, grown;
        }
        ListAddTail(page);
        grown := grown + page[..];
      }
      ok := true;
    }

    /** What the page walk of a tasklet run leaves alone is still as in `p`. */
    ghost predicate DrainingFrom(p: Port)
      reads this, buf
    {
      && p.ring.buf == buf[..] && p.ring.tail == tail
      && p.queue.dataSize == dataSize && p.queue.headIndex == headIndex && p.queue.tailIndex == tailIndex
      && p.queue.headOffset == headOffset && p.queue.tailOffset == tailOffset
      && p.halfByte == halfByte && p.sigFlag == sigFlag && p.scheduled == scheduled
      && p.nullFlag == nullFlag && p.nullLocation == nullLocation && p.nprocs == nprocs
    }

    /** The end of a tasklet run that has moved `sizeWritten` bytes. */
    method FinishRun(sizeWritten: nat, beginOffset: nat, ghost p: Port)
      requires Valid() && DrainingFrom(p)
      requires beginOffset == if sizeWritten == 0 then 0 else (tailOffset + sizeWritten) % PAGE_SIZE
      modifies this`dataSize, this`tailIndex, this`tailOffset, this`waitFlag
      ensures Valid()
      ensures View() == Arrived(p, head, Flat(memList), sizeWritten)
    {
      dataSize := dataSize + sizeWritten;
      if beginOffset == 0 {
        tailIndex := tailIndex + 1;
      }
      tailOffset := beginOffset;
      waitFlag := false;
    }

    /** The second part of a tasklet run: the ring is copied to the pages. */
    method MoveRing(beyond: seq<byte>)
      requires Valid() && !scheduled && |beyond| == BUF_SIZE
      modifies this`head, this`dataSize, this`tailIndex, this`tailOffset, this`waitFlag, memList
      ensures Valid()
      ensures View() == Transfer(old(View()), beyond)
    {
      ghost var p := View();
      var job := Job(Ring(buf[..], head, tail), beyond, tailIndex, tailOffset, CircCnt(tail, head));
      assert job == JobOf(p, beyond) && |p.queue.mem| / PAGE_SIZE == |memList|;
      var sizeWritten, beginOffset;
      sizeWritten, beginOffset, head := CopyRing(memList, job);
      ArrivedIsTransfer(p, beyond, head, Flat(memList), sizeWritten, beginOffset);
      FinishRun(sizeWritten, beginOffset, p);
    }

    /** `beyond` is what the machine has in memory after the ring's buffer. */
    method BottomHalf(beyond: seq<byte>, alloc: Allocator) returns (ghost grown: seq<byte>)
      requires Valid() && |beyond| == BUF_SIZE
      modifies this, memList, alloc
      ensures Valid()
      ensures Allotted(|old(View()).queue.mem|, old(View()).queue.dataSize + Count(old(View()).ring),
                       old(alloc.left), grown)
      ensures numPages + alloc.left == old(numPages) + old(alloc.left)
      ensures View() == Drain(old(View()), beyond, grown)
      ensures old(memList) <= memList
      ensures forall k | |old(memList)| <= k < |memList| :: fresh(memList[k])
      ensures old(listed) <= listed && freed == old(freed)
    {
      ghost var p := View();
      scheduled := false;
      var ok;
      ok, grown := Allocate(dataSize + CircCnt(tail, head), alloc);
      ghost var p' := View();
      assert p' == p.(queue := p.queue.(mem := p.queue.mem + grown), scheduled := false);
      if ok {
        MoveRing(beyond);
      }
    }

    // ----- reading -----

    /** The part of a read before it may have to sleep. */
    method EnterRead() returns (entry: Entry)
      requires Valid()
      modifies this`nullLocation, this`headOffset, this`waitFlag
      ensures Valid()
      ensures (View(), entry) == PortSpec.EnterRead(old(View()))
    {
      if headOffset == nullLocation {
        nullLocation := -1;
        headOffset := headOffset + 1;
        return Skipped;
      }
      if headIndex == tailIndex && headOffset == tailOffset {
        waitFlag := true;
      }
      return if waitFlag then Asleep else Ready;
    }

    /** __free_page and list_del of the page at the front. */
    method FreeFront()
      requires PageList(memList) && PageList(listed) && listed == freed + memList
      requires memList != [] && numPages > 0
      modifies this`memList, this`freed, this`numPages
      ensures PageList(memList) && listed == freed + memList
      ensures memList == old(memList)[1..] && freed == old(freed) + [old(memList)[0]]
      ensures numPages == old(numPages) - 1
    {
      freed := freed + [memList[0]];
      memList := memList[1..];
      numPages := numPages - 1;
    }

    /** In the middle of a read: `count` pages have gone from the front of `pages`. */
    ghost predicate Walking(pages: seq<array<byte>>, count: nat)
      reads this
    {
      && PageList(pages) && PageList(listed) && listed == freed + memList
      && count <= |pages| && memList == pages[count..] && numPages == |memList|
      && headIndex == count && headOffset <= PAGE_SIZE
    }

    /** Leaves page `j` of the `pages` the read started with, where it has read `byteCount`
        of the `min` bytes it looked at: raises the flag if a separator stopped it, and
        frees the page if the offset is back at 0. */
    method LeavePage(pages: seq<array<byte>>, j: nat, byteCount: nat, min: nat, freedPages: nat,
                     ghost r: Start, ghost sizeRead: nat, ghost beginOffset: nat)
      returns (newFreedPages: nat)
      requires Walking(pages, freedPages) && !nullFlag && j < |pages| && r.h <= PAGE_SIZE
      requires Walk(r.h, r.total, j, sizeRead, freedPages, beginOffset)
      requires byteCount <= min == Min(r.total - sizeRead, PAGE_SIZE - beginOffset)
      requires headOffset == if byteCount == 0 then beginOffset else (beginOffset + byteCount) % PAGE_SIZE
      requires byteCount < min ==> r.h + sizeRead + byteCount < |r.mem| && r.mem[r.h + sizeRead + byteCount] == 0
      modifies this`nullFlag, this`headIndex, this`memList, this`freed, this`numPages
      ensures Walking(pages, newFreedPages)
      ensures
        if nullFlag then StoppedAtNul(r.mem, r.h, r.total, sizeRead + byteCount, newFreedPages, headOffset)
        else Walk(r.h, r.total, j + 1, sizeRead + byteCount, newFreedPages, headOffset)
    {
      WalkPosition(r.h, r.total, j, sizeRead, freedPages, beginOffset);
      WalkStep(r.h, r.total, j, sizeRead, freedPages, beginOffset, byteCount);
      newFreedPages := freedPages;
      if byteCount < min {
        nullFlag := true;
      }
      if headOffset == 0 {
        headIndex := headIndex + 1;
        FreeFront();
        newFreedPages := freedPages + 1;
      }
    }

    /** A read has come to page `j`, or has stopped at a separator. */
    ghost predicate InWalk(pages: seq<array<byte>>, ubuf: array<byte>, r: Start,
                           j: nat, sizeRead: nat, freedPages: nat)
      reads this, pages, ubuf
    {
      && Walking(pages, freedPages)
      && r.mem == Flat(pages) && ReadSoFar(r.before, ubuf[..], r.mem, r.h, sizeRead)
      && if nullFlag then StoppedAtNul(r.mem, r.h, r.total, sizeRead, freedPages, headOffset)
         else Walk(r.h, r.total, j, sizeRead, freedPages, headOffset)
    }

    /** The body of the page walk of a read, at page `j`. */
    method ReadPage(pages: seq<array<byte>>, j: nat, ubuf: array<byte>, actualSize: nat, sizeRead: nat,
                    freedPages: nat, ghost r: Start)
      returns (newSizeRead: nat, newFreedPages: nat)
      requires InWalk(pages, ubuf, r, j, sizeRead, freedPages) && !nullFlag
      requires sizeRead + actualSize == r.total <= ubuf.Length
      requires r.h <= PAGE_SIZE && j < |pages| && ubuf !in pages
      modifies this`headOffset, this`nullFlag, this`headIndex, this`memList, this`freed, this`numPages, ubuf
      ensures sizeRead <= newSizeRead <= r.total
      ensures InWalk(pages, ubuf, r, j + 1, newSizeRead, newFreedPages)
    {
      var beginOffset := headOffset;
      var min := Min(actualSize, PAGE_SIZE - beginOffset);
      WalkPosition(r.h, r.total, j, sizeRead, freedPages, beginOffset);
      var byteCount;
      byteCount, headOffset := ReadOn(pages, j, beginOffset, min, ubuf, sizeRead, r.before, r.h);
      newSizeRead := sizeRead + byteCount;
      newFreedPages := LeavePage(pages, j, byteCount, min, freedPages, r, sizeRead, beginOffset);
    }

    /** The page walk of a read that may deliver up to `total` bytes. */
    method ReadPages(pages: seq<array<byte>>, ubuf: array<byte>, total: nat) returns (sizeRead: nat, freedPages: nat)
      requires Walking(pages, 0) && !nullFlag
      requires ubuf !in pages && total <= ubuf.Length
      modifies this`headOffset, this`nullFlag, this`headIndex, this`memList, this`freed, this`numPages, ubuf
      ensures InWalk(pages, ubuf, Start(old(ubuf[..]), old(Flat(pages)), old(headOffset), total),
                     |pages|, sizeRead, freedPages)
    {
      ghost var r := Start(ubuf[..], Flat(pages), headOffset, total);
      sizeRead, freedPages := 0, 0;
      var j := 0;
      while j < |pages| && !nullFlag
        invariant j <= |pages| && sizeRead <= total
        invariant InWalk(pages, ubuf, r, j, sizeRead, freedPages)
      {
        sizeRead, freedPages := ReadPage(pages, j, ubuf, total - sizeRead, sizeRead, freedPages, r);
        j := j + 1;
      }
    }

    /** What the page walk of a read leaves alone is still as in `p`. */
    ghost predicate ReadingFrom(p: Port, pages: seq<array<byte>>)
      reads this, pages, buf
    {
      && PageList(pages) && buf.Length == BUF_SIZE && buf !in pages
      && Wf(p) && p.ring == RingView()
      && p.queue.mem == Flat(pages) && p.queue.dataSize == dataSize
      && p.queue.tailIndex == tailIndex && p.queue.tailOffset == tailOffset
      && p.halfByte == halfByte && p.sigFlag == sigFlag && p.scheduled == scheduled
      && p.waitFlag == waitFlag && p.nullLocation == nullLocation && p.nprocs == nprocs
    }

    /** The end of a read that has freed `freedPages` of the `pages` it started with:
        indices and size are counted from the new front. */
    method Rebase(pages: seq<array<byte>>, freedPages: nat, ghost p: Port)
      requires Walking(pages, freedPages) && ReadingFrom(p, pages)
      requires nullFlag ==> headOffset < PAGE_SIZE
      modifies this`headIndex, this`tailIndex, this`nullLocation, this`dataSize
      ensures Valid()
      ensures freedPages * PAGE_SIZE <= |p.queue.mem|
      ensures View() == Walked(p, freedPages, headOffset, nullFlag)
    {
      FlatOfSuffix(pages, freedPages);
      headIndex := headIndex - freedPages;
      tailIndex := tailIndex - freedPages;
      if nullFlag {
        nullLocation := headOffset;
      }
      dataSize := SizeSub(dataSize, freedPages * PAGE_SIZE);
    }

    /** Reads from the list, up to but not including the rebasing of the indices. */
    method ReadList(ubuf: array<byte>, count: nat) returns (sizeRead: nat, freedPages: nat)
      requires Valid() && !nullFlag && ubuf !in memList && ubuf != buf && count <= ubuf.Length
      modifies this`headOffset, this`nullFlag, this`headIndex, this`memList, this`freed, this`numPages, ubuf
      ensures Walking(old(memList), freedPages) && ReadingFrom(old(View()), old(memList))
      ensures nullFlag ==> headOffset < PAGE_SIZE
      ensures
        var p := old(View());
        && freedPages == Frees(p.queue, count) && freedPages * PAGE_SIZE <= |p.queue.mem|
        && Deliver(p, count).0 == Walked(p, freedPages, headOffset, nullFlag)
        && sizeRead == |Deliver(p, count).1| <= ubuf.Length
        && ubuf[..] == Overwrite(old(ubuf[..]), 0, Deliver(p, count).1)
    {
      ghost var p, before := View(), ubuf[..];
      var pages := memList;
      assert pages[0..] == pages;
      sizeRead, freedPages := ReadPages(pages, ubuf, Min(count, SizeSub(dataSize, headOffset)));
      ReadIsDeliver(p, count, before, ubuf[..], sizeRead, freedPages, headOffset, nullFlag);
    }

    /** The part of a read after the wait, when no separator ends the session. */
    method ReadSession(ubuf: array<byte>, count: nat) returns (sizeRead: nat)
      requires Valid() && !nullFlag && ubuf !in memList && ubuf != buf && count <= ubuf.Length
      modifies this`headOffset, this`nullFlag, this`headIndex, this`memList, this`freed, this`numPages
      modifies this`tailIndex, this`nullLocation, this`dataSize, ubuf
      ensures Valid() && listed == old(listed)
      ensures FreedFront(old(memList), old(freed), FreedBy(old(View()), count), memList, freed)
      ensures View() == Deliver(old(View()), count).0
      ensures sizeRead == |Deliver(old(View()), count).1| <= ubuf.Length
      ensures ubuf[..] == Overwrite(old(ubuf[..]), 0, Deliver(old(View()), count).1)
    {
      ghost var p := View();
      var pages, freedPages := memList, 0;
      sizeRead, freedPages := ReadList(ubuf, count);
      ghost var delivered := ubuf[..];
      LedgerOfFront(pages, old(freed), freedPages, memList, freed);
      Rebase(pages, freedPages, p);
      assert ubuf[..] == delivered;
    }

    /** The part of a read after the wait. */
    method ReadBody(ubuf: array<byte>, count: nat) returns (sizeRead: nat)
      requires Valid() && ubuf !in memList && ubuf != buf && count <= ubuf.Length
      modifies this`headOffset, this`nullFlag, this`headIndex, this`memList, this`freed, this`numPages
      modifies this`tailIndex, this`nullLocation, this`dataSize, ubuf
      ensures Valid() && listed == old(listed)
      ensures FreedFront(old(memList), old(freed), FreedBy(old(View()), count), memList, freed)
      ensures View() == Deliver(old(View()), count).0
      ensures sizeRead == |Deliver(old(View()), count).1| <= ubuf.Length
      ensures ubuf[..] == Overwrite(old(ubuf[..]), 0, Deliver(old(View()), count).1)
    {
      if nullFlag {
        return 0;
      }
      sizeRead := ReadSession(ubuf, count);
    }

    /** A read that does not find the wait flag set. One that does is left asleep, and
        goes on with `ReadBody` once a tasklet run has cleared the flag. */
    method Read(ubuf: array<byte>, count: nat) returns (entry: Entry, sizeRead: nat)
      requires Valid() && ubuf !in memList && ubuf != buf && count <= ubuf.Length
      modifies this, ubuf
      ensures Valid() && listed == old(listed)
      ensures
        var (p', e) := PortSpec.EnterRead(old(View()));
        && entry == e
        && FreedFront(old(memList), old(freed), if e == Ready then FreedBy(p', count) else 0, memList, freed)
        && View() == (if e == Ready then Deliver(p', count).0 else p')
        && sizeRead == (if e == Ready then |Deliver(p', count).1| else 0) <= ubuf.Length
        && ubuf[..] == (if e == Ready then Overwrite(old(ubuf[..]), 0, Deliver(p', count).1) else old(ubuf[..]))
    {
      sizeRead := 0;
      entry := EnterRead();
      if entry == Ready {
        sizeRead := ReadBody(ubuf, count);
      }
    }

    /** An open whose wait for the device is over. */
    method Open(readOnly: bool) returns (r: int)
      requires Valid() && nprocs == 0
      modifies this`nprocs
      ensures Valid()
      ensures (View(), r) == DoOpen(old(View()), readOnly)
    {
      nprocs := nprocs + 1;
      if !readOnly {
        return -EACCES;
      }
      return 0;
    }

    method Release() returns (r: int)
      requires Valid()
      modifies this`nullFlag, this`nprocs
      ensures Valid()
      ensures View() == EndSession(old(View())) && r == 0
    {
      nullFlag := false;
      nprocs := nprocs - 1;
      r := 0;
    }
  }
}
