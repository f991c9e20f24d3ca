/** The page walks of the asgn2 tasklet and reader: what they do to the pages, the ring
    and the user's buffer, and that this is what `PortSpec` says. */
module PortWalk {
  import opened Bytes
  import opened Pages
  import opened PortSpec

  // ----- the walk of a tasklet run -----

  /** What a tasklet run has to do: move `total` bytes of the ring to the pages, from offset
      `tailOffset` of page `beginPageNo` on. `beyond` lies in memory after the ring. */
  datatype Job = Job(ring: Ring, beyond: seq<byte>, beginPageNo: int, tailOffset: nat, total: nat) {
    ghost predicate Ok() {
      RingOk(ring) && |beyond| == BUF_SIZE && tailOffset < PAGE_SIZE && total < BUF_SIZE
    }

    function Pos(): nat {
      Max(beginPageNo, 0) * PAGE_SIZE + tailOffset
    }
  }

  /** The first `n` bytes of the job have arrived in `flat`, which was `mem` before. */
  ghost predicate Stored(job: Job, mem: seq<byte>, flat: seq<byte>, n: nat)
    requires job.Ok() && n < BUF_SIZE
  {
    if n == 0 then flat == mem
    else Holds(flat, mem, job.Pos(), Copied(job.ring, job.tailOffset, job.beyond, n), 0, n)
  }

  /** They have also left the ring, up to `head`. */
  ghost predicate Moved(job: Job, mem: seq<byte>, head: nat, flat: seq<byte>, n: nat) {
    job.Ok() && n < BUF_SIZE && head == (job.ring.head + n) % BUF_SIZE && Stored(job, mem, flat, n)
  }

  lemma RingAdvance(head: nat, m: nat, n: nat)
    ensures ((head + m) % BUF_SIZE + n) % BUF_SIZE == (head + (m + n)) % BUF_SIZE
  {
  }

  lemma CopiedOn(job: Job, head: nat, m: nat, n: nat)
    requires job.Ok() && m + n < BUF_SIZE && head == (job.ring.head + m) % BUF_SIZE
    requires (m == 0 && n <= PAGE_SIZE - job.tailOffset) || m == PAGE_SIZE - job.tailOffset
    ensures
      var src := job.ring.buf + job.beyond;
      && head + n <= |src|
      && Copied(job.ring, job.tailOffset, job.beyond, m + n)
      == Copied(job.ring, job.tailOffset, job.beyond, m) + src[head..head + n]
  {
    CopiedMore(job.ring, job.tailOffset, job.beyond, m, n);
  }

  lemma StoredMore(job: Job, mem: seq<byte>, head: nat, soFar: seq<byte>, flat: seq<byte>, m: nat, n: nat)
    requires job.Ok() && 0 < n && m + n < BUF_SIZE && Stored(job, mem, soFar, m)
    requires
      var src := job.ring.buf + job.beyond;
      && Holds(flat, soFar, job.Pos() + m, src, head, head + n)
      && Copied(job.ring, job.tailOffset, job.beyond, m + n)
      == Copied(job.ring, job.tailOffset, job.beyond, m) + src[head..head + n]
    ensures Stored(job, mem, flat, m + n)
  {
    var copied := Copied(job.ring, job.tailOffset, job.beyond, m);
    assert copied == [] <==> m == 0;
    HoldsThen(soFar, flat, mem, job.Pos(), copied, job.ring.buf + job.beyond, head, n);
  }

  /** `n` more bytes have been copied from where the ring's head was. */
  lemma MovedMore(job: Job, mem: seq<byte>, head: nat, soFar: seq<byte>, flat: seq<byte>, m: nat, n: nat)
    requires Moved(job, mem, head, soFar, m) && 0 < n && m + n < BUF_SIZE
    requires (m == 0 && n <= PAGE_SIZE - job.tailOffset) || m == PAGE_SIZE - job.tailOffset
    requires Holds(flat, soFar, job.Pos() + m, job.ring.buf + job.beyond, head, head + n)
    ensures Moved(job, mem, (head + n) % BUF_SIZE, flat, m + n)
  {
    CopiedOn(job, head, m, n);
    StoredMore(job, mem, head, soFar, flat, m, n);
    RingAdvance(job.ring.head, m, n);
  }

  /** One memcpy of a tasklet run, after `m` bytes. */
  method CopyChunk(pages: seq<array<byte>>, i: nat, beginOffset: nat, sizeToCopy: nat, job: Job, head: nat,
                   ghost mem: seq<byte>, ghost m: nat)
    returns (newHead: nat)
    requires PageList(pages) && i < |pages| && beginOffset + sizeToCopy <= PAGE_SIZE && 0 < sizeToCopy
    requires Moved(job, mem, head, Flat(pages), m) && m + sizeToCopy < BUF_SIZE
    requires job.Pos() + m == i * PAGE_SIZE + beginOffset
    requires (m == 0 && sizeToCopy <= PAGE_SIZE - job.tailOffset) || m == PAGE_SIZE - job.tailOffset
    modifies pages[i]
    ensures Moved(job, mem, newHead, Flat(pages), m + sizeToCopy)
  {
    ghost var soFar := Flat(pages);
    MemcpyToPage(pages, i, beginOffset, job.ring.buf + job.beyond, head, sizeToCopy);
    MovedMore(job, mem, head, soFar, Flat(pages), m, sizeToCopy);
    newHead := (head + sizeToCopy) % BUF_SIZE;
  }

  /** The tasklet's arithmetic at a page on which it copies: it fills the page up, and
      touches two pages at most. */
  lemma ChunkStep(tailIndex: int, tailOffset: nat, total: nat, i: nat)
    requires tailOffset < PAGE_SIZE && total < BUF_SIZE
    requires i >= tailIndex && Reach(Max(tailIndex, 0) * PAGE_SIZE + tailOffset, total, i) < total
    ensures
      var pos := Max(tailIndex, 0) * PAGE_SIZE + tailOffset;
      var r := Reach(pos, total, i);
      var off := (tailOffset + r) % PAGE_SIZE;
      var n := Min(total - r, PAGE_SIZE - off);
      && Reach(pos, total, i + 1) == r + n
      && pos + r == i * PAGE_SIZE + off
      && ((r == 0 && n <= PAGE_SIZE - tailOffset) || r == PAGE_SIZE - tailOffset)
  {
    var pos := Max(tailIndex, 0) * PAGE_SIZE + tailOffset;
    assert pos / PAGE_SIZE == Max(tailIndex, 0) && pos % PAGE_SIZE == tailOffset;
    ReachStep(pos, total, i);
  }

  /** Any other page it leaves alone. */
  lemma NoChunk(tailIndex: int, tailOffset: nat, total: nat, i: nat)
    requires tailOffset < PAGE_SIZE
    requires i < tailIndex || Reach(Max(tailIndex, 0) * PAGE_SIZE + tailOffset, total, i) == total
    ensures
      var pos := Max(tailIndex, 0) * PAGE_SIZE + tailOffset;
      Reach(pos, total, i + 1) == Reach(pos, total, i)
  {
    var pos := Max(tailIndex, 0) * PAGE_SIZE + tailOffset;
    if i < tailIndex {
      assert pos / PAGE_SIZE == tailIndex;
      ReachBefore(pos, total, i);
    }
  }

  /** A tasklet run has come to page `i`. */
  ghost predicate InDrain(job: Job, mem: seq<byte>, flat: seq<byte>, i: nat,
                          sizeWritten: nat, beginOffset: nat, head: nat)
  {
    && job.Ok()
    && sizeWritten == Reach(job.Pos(), job.total, i)
    && beginOffset == (if sizeWritten == 0 then 0 else (job.tailOffset + sizeWritten) % PAGE_SIZE)
    && Moved(job, mem, head, flat, sizeWritten)
  }

  /** The body of the page walk of a tasklet run, at page `i`. */
  method DrainPage(pages: seq<array<byte>>, i: nat, job: Job, sizeWritten: nat, beginOffset: nat, head: nat,
                   ghost mem: seq<byte>)
    returns (newSizeWritten: nat, newBeginOffset: nat, newHead: nat)
    requires PageList(pages) && i < |pages|
    requires InDrain(job, mem, Flat(pages), i, sizeWritten, beginOffset, head)
    modifies pages[i]
    ensures InDrain(job, mem, Flat(pages), i + 1, newSizeWritten, newBeginOffset, newHead)
  {
    var count, currOffset := job.total - sizeWritten, job.tailOffset + sizeWritten;
    if i < job.beginPageNo || count == 0 {
      NoChunk(job.beginPageNo, job.tailOffset, job.total, i);
      return sizeWritten, beginOffset, head;
    }
    ChunkStep(job.beginPageNo, job.tailOffset, job.total, i);
    newBeginOffset := currOffset % PAGE_SIZE;
    var sizeToCopy := Min(count, PAGE_SIZE - newBeginOffset);
    newHead := CopyChunk(pages, i, newBeginOffset, sizeToCopy, job, head, mem, sizeWritten);
    newSizeWritten := sizeWritten + sizeToCopy;
    newBeginOffset := (currOffset + sizeToCopy) % PAGE_SIZE;
  }

  /** The page walk of a tasklet run. */
  method CopyRing(pages: seq<array<byte>>, job: Job) returns (sizeWritten: nat, beginOffset: nat, head: nat)
    requires PageList(pages) && job.Ok()
    modifies pages
    ensures InDrain(job, old(Flat(pages)), Flat(pages), |pages|, sizeWritten, beginOffset, head)
  {
    ghost var mem := Flat(pages);
    sizeWritten, beginOffset, head := 0, 0, job.ring.head;
    var currPageNo := 0;
    while currPageNo < |pages|
      invariant currPageNo <= |pages|
      invariant InDrain(job, mem, Flat(pages), currPageNo, sizeWritten, beginOffset, head)
    {
      sizeWritten, beginOffset, head := DrainPage(pages, currPageNo, job, sizeWritten, beginOffset, head, mem);
      currPageNo := currPageNo + 1;
    }
  }

  lemma MovedIsOverwrite(job: Job, mem: seq<byte>, head: nat, flat: seq<byte>, n: nat)
    requires Moved(job, mem, head, flat, n)
    ensures n > 0 ==> job.Pos() + n <= |mem|
    ensures flat ==
      if n == 0 then mem else Overwrite(mem, job.Pos(), Copied(job.ring, job.tailOffset, job.beyond, n))
  {
    if n > 0 {
      var copied := Copied(job.ring, job.tailOffset, job.beyond, n);
      assert copied[0..n] == copied;
      HoldsIsOverwrite(flat, mem, job.Pos(), copied, 0, n);
    }
  }

  /** The state after `n` bytes have arrived. */
  ghost function Arrived(p: Port, head: nat, mem: seq<byte>, n: nat): Port {
    var q := p.queue;
    var beginOffset := if n == 0 then 0 else (q.tailOffset + n) % PAGE_SIZE;
    p.(ring := p.ring.(head := head),
       queue := q.(mem := mem, dataSize := q.dataSize + n,
                   tailIndex := if beginOffset == 0 then q.tailIndex + 1 else q.tailIndex,
                   tailOffset := beginOffset),
       waitFlag := false)
  }

  /** The job of a tasklet run from state `p` on. */
  function JobOf(p: Port, beyond: seq<byte>): Job {
    Job(p.ring, beyond, p.queue.tailIndex, p.queue.tailOffset, Count(p.ring))
  }

  lemma MovedSize(p: Port, beyond: seq<byte>, head: nat, mem: seq<byte>, n: nat, beginOffset: nat)
    requires Wf(p) && |beyond| == BUF_SIZE
    requires InDrain(JobOf(p, beyond), p.queue.mem, mem, |p.queue.mem| / PAGE_SIZE, n, beginOffset, head)
    ensures n == TransferSize(p) && head == (p.ring.head + n) % BUF_SIZE
  {
    ReachOfAll(WritePos(p.queue), Count(p.ring), |p.queue.mem|);
  }

  lemma SizeIsTransfer(p: Port, beyond: seq<byte>, head: nat, mem: seq<byte>, n: nat)
    requires Wf(p) && |beyond| == BUF_SIZE
    requires n == TransferSize(p) && head == (p.ring.head + n) % BUF_SIZE
    requires mem ==
      if n == 0 then p.queue.mem
      else Overwrite(p.queue.mem, WritePos(p.queue), Copied(p.ring, p.queue.tailOffset, beyond, n))
    ensures Arrived(p, head, mem, n) == Transfer(p, beyond)
  {
  }

  lemma ArrivedIsTransfer(p: Port, beyond: seq<byte>, head: nat, mem: seq<byte>, n: nat, beginOffset: nat)
    requires Wf(p) && |beyond| == BUF_SIZE
    requires InDrain(JobOf(p, beyond), p.queue.mem, mem, |p.queue.mem| / PAGE_SIZE, n, beginOffset, head)
    ensures Arrived(p, head, mem, n) == Transfer(p, beyond)
  {
    MovedIsOverwrite(JobOf(p, beyond), p.queue.mem, head, mem, n);
    MovedSize(p, beyond, head, mem, n, beginOffset);
    SizeIsTransfer(p, beyond, head, mem, n);
  }

  // ----- the page walk of a read -----

  /** Looks for a separator among `min` bytes of a page. */
  method Scan(page: array<byte>, beginOffset: nat, min: nat) returns (byteCount: nat)
    requires beginOffset + min <= page.Length
    ensures byteCount == UntilNul(page[beginOffset..beginOffset + min])
  {
    ghost var w := page[beginOffset..beginOffset + min];
    byteCount := 0;
    while byteCount < min && page[beginOffset + byteCount] != 0
      invariant byteCount <= min
      invariant NulFree(w[..byteCount])
    {
      byteCount := byteCount + 1;
    }
    UntilNulUnique(w, byteCount);
  }

  /** The retry loop of a read inside page `i`, which starts at `headOffset`. */
  method CopyOut(pages: seq<array<byte>>, i: nat, headOffset: nat, ubuf: array<byte>, at: nat, sizeToCopy: nat)
    returns (newHeadOffset: nat)
    requires PageList(pages) && ubuf !in pages && i < |pages|
    requires headOffset + sizeToCopy <= PAGE_SIZE && at + sizeToCopy <= ubuf.Length
    modifies ubuf
    ensures newHeadOffset == if sizeToCopy == 0 then headOffset else (headOffset + sizeToCopy) % PAGE_SIZE
    ensures Holds(ubuf[..], old(ubuf[..]), at, Flat(pages),
                  i * PAGE_SIZE + headOffset, i * PAGE_SIZE + headOffset + sizeToCopy)
  {
    ghost var flat, before, pos := Flat(pages), ubuf[..], i * PAGE_SIZE + headOffset;
    var sizeRead: nat, left: nat := 0, sizeToCopy;
    newHeadOffset := headOffset;
    while left > 0
      invariant sizeRead + left == sizeToCopy
      invariant newHeadOffset == if sizeRead == 0 then headOffset else (headOffset + sizeRead) % PAGE_SIZE
      invariant Holds(ubuf[..], before, at, flat, pos, pos + sizeRead)
    {
      assert newHeadOffset == headOffset + sizeRead;
      ghost var soFar := ubuf[..];
      var uncopied := CopyToUser(ubuf, at + sizeRead, pages, i, newHeadOffset, left);
      var copied := left - uncopied;
      HoldsMore(soFar, ubuf[..], before, at, flat, pos, pos + sizeRead, copied);
      left := uncopied;
      sizeRead := sizeRead + copied;
      newHeadOffset := (newHeadOffset + copied) % PAGE_SIZE;
    }
  }

  /** What a read set out with: the user's buffer, the bytes of the pages, the offset it
      starts at, and how many bytes it may deliver. */
  datatype Start = Start(before: seq<byte>, mem: seq<byte>, h: nat, total: nat)

  /** The user's buffer holds the first `sizeRead` bytes from `h` on; none is a separator. */
  ghost predicate ReadSoFar(before: seq<byte>, buf: seq<byte>, mem: seq<byte>, h: nat, sizeRead: nat) {
    if sizeRead == 0 then buf == before
    else
      && Holds(buf, before, 0, mem, h, h + sizeRead)
      && NulFree(mem[h..h + sizeRead])
  }

  lemma ReadMore(before: seq<byte>, buf: seq<byte>, buf': seq<byte>, mem: seq<byte>,
                 h: nat, sizeRead: nat, pos: nat, n: nat, k: nat)
    requires ReadSoFar(before, buf, mem, h, sizeRead)
    requires pos + n <= |mem| && k == UntilNul(mem[pos..pos + n])
    requires Holds(buf', buf, sizeRead, mem, pos, pos + k)
    requires n > 0 ==> pos == h + sizeRead
    ensures ReadSoFar(before, buf', mem, h, sizeRead + k)
    ensures k < n ==> h + sizeRead + k < |mem| && mem[h + sizeRead + k] == 0
  {
    assert mem[pos..pos + n][..k] == mem[pos..pos + k];
    if k > 0 {
      if sizeRead > 0 {
        HoldsMore(buf, buf', before, 0, mem, h, h + sizeRead, k);
      }
      assert sizeRead > 0 ==> mem[h..h + sizeRead + k] == mem[h..h + sizeRead] + mem[pos..pos + k];
    } else {
      HoldsIsOverwrite(buf', buf, sizeRead, mem, pos, pos);
      assert buf' == buf;
    }
  }

  /** The part of a read inside page `i`: up to `min` more bytes from `headOffset` on, but
      not past a separator. */
  method ReadOn(pages: seq<array<byte>>, i: nat, headOffset: nat, min: nat, ubuf: array<byte>, sizeRead: nat,
                ghost before: seq<byte>, ghost h: nat)
    returns (byteCount: nat, newHeadOffset: nat)
    requires PageList(pages) && ubuf !in pages && i < |pages|
    requires headOffset + min <= PAGE_SIZE && sizeRead + min <= ubuf.Length
    requires min > 0 ==> i * PAGE_SIZE + headOffset == h + sizeRead
    requires ReadSoFar(before, ubuf[..], Flat(pages), h, sizeRead)
    modifies ubuf
    ensures byteCount <= min
    ensures ReadSoFar(before, ubuf[..], Flat(pages), h, sizeRead + byteCount)
    ensures byteCount < min ==> h + sizeRead + byteCount < |Flat(pages)| && Flat(pages)[h + sizeRead + byteCount] == 0
    ensures newHeadOffset == if byteCount == 0 then headOffset else (headOffset + byteCount) % PAGE_SIZE
  {
    ghost var soFar, flat, pos := ubuf[..], Flat(pages), i * PAGE_SIZE + headOffset;
    FlatOfPage(pages, i, headOffset, min);
    byteCount := Scan(pages[i], headOffset, min);
    assert byteCount == UntilNul(flat[pos..pos + min]);
    newHeadOffset := CopyOut(pages, i, headOffset, ubuf, sizeRead, byteCount);
    ReadMore(before, soFar, ubuf[..], flat, h, sizeRead, pos, min, byteCount);
    assert Flat(pages) == flat;
  }

  /** Where a walk stands before page `j`: it set out at offset `h`, may deliver up to
      `total` bytes, has delivered `sizeRead`, and has freed `freed` pages. */
  ghost predicate Walk(h: nat, total: nat, j: nat, sizeRead: nat, freed: nat, headOffset: nat) {
    if h >= PAGE_SIZE then
      sizeRead == 0 && freed == 0 && headOffset == h
    else
      && sizeRead == Reach(h, total, j)
      && if j == 0 then freed == 0 && headOffset == h
         else
           && headOffset == (h + sizeRead) % PAGE_SIZE
           && (headOffset == 0 ==> freed == j)
           && (headOffset != 0 ==> freed == (h + sizeRead) / PAGE_SIZE && sizeRead == total)
  }

  /** Where a walk ends that has found a separator behind the `sizeRead` bytes it read. */
  ghost predicate Stopped(h: nat, sizeRead: nat, freed: nat, headOffset: nat) {
    && headOffset == (h + sizeRead) % PAGE_SIZE
    && freed == (h + sizeRead) / PAGE_SIZE + if headOffset == 0 then 1 else 0
  }

  ghost predicate StoppedAtNul(mem: seq<byte>, h: nat, total: nat, sizeRead: nat, freed: nat, headOffset: nat) {
    && h < PAGE_SIZE && sizeRead < total
    && h + sizeRead < |mem| && mem[h + sizeRead] == 0
    && Stopped(h, sizeRead, freed, headOffset)
  }

  lemma WalkPosition(h: nat, total: nat, j: nat, sizeRead: nat, freed: nat, headOffset: nat)
    requires h <= PAGE_SIZE && Walk(h, total, j, sizeRead, freed, headOffset)
    ensures headOffset <= PAGE_SIZE && sizeRead <= total
    ensures Min(total - sizeRead, PAGE_SIZE - headOffset) > 0 ==>
      h < PAGE_SIZE && j * PAGE_SIZE + headOffset == h + sizeRead
  {
  }

  /** What a walk does at page `j`: of the up to `n` bytes it looks at there, it delivers
      `k`, and stops for good if that is less. */
  lemma WalkStep(h: nat, total: nat, j: nat, sizeRead: nat, freed: nat, headOffset: nat, k: nat)
    requires h <= PAGE_SIZE && Walk(h, total, j, sizeRead, freed, headOffset)
    requires k <= Min(total - sizeRead, PAGE_SIZE - headOffset)
    ensures
      var n := Min(total - sizeRead, PAGE_SIZE - headOffset);
      var headOffset' := if k == 0 then headOffset else (headOffset + k) % PAGE_SIZE;
      var freed' := if headOffset' == 0 then freed + 1 else freed;
      && (headOffset' == 0 ==> freed == j)
      && (if k == n then Walk(h, total, j + 1, sizeRead + k, freed', headOffset')
          else Stopped(h, sizeRead + k, freed', headOffset'))
  {
  }

  /** What the walk of a read leaves behind. */
  ghost function Walked(p: Port, freed: nat, headOffset: nat, found: bool): Port
    requires freed * PAGE_SIZE <= |p.queue.mem|
  {
    var q := p.queue;
    p.(queue := Queue(q.mem[freed * PAGE_SIZE..], SizeSub(q.dataSize, freed * PAGE_SIZE),
                      q.headIndex, q.tailIndex - freed, headOffset, q.tailOffset),
       nullFlag := found, nullLocation := if found then headOffset else p.nullLocation)
  }

  /** The bytes read. */
  ghost function Stretch(mem: seq<byte>, h: nat, n: nat): (s: seq<byte>)
    requires n > 0 ==> h + n <= |mem|
    ensures |s| == n
  {
    if n == 0 then [] else mem[h..h + n]
  }

  lemma WindowSize(q: Queue, count: nat)
    requires |q.mem| % PAGE_SIZE == 0
    ensures |Window(q, count)| ==
      if q.headOffset >= PAGE_SIZE then 0
      else Reach(q.headOffset, Min(count, SizeSub(q.dataSize, q.headOffset)), |q.mem| / PAGE_SIZE)
  {
    if q.headOffset < PAGE_SIZE {
      ReachOfAll(q.headOffset, Min(count, SizeSub(q.dataSize, q.headOffset)), |q.mem|);
    }
  }

  /** A walk over all of `size` bytes has freed the right number of pages. */
  lemma WalkFrees(h: nat, total: nat, sizeRead: nat, freed: nat, headOffset: nat, size: nat)
    requires size % PAGE_SIZE == 0 && Walk(h, total, size / PAGE_SIZE, sizeRead, freed, headOffset)
    ensures freed == FreesAt(h, sizeRead, h + sizeRead, size)
    ensures headOffset == if h >= PAGE_SIZE then h else (h + sizeRead) % PAGE_SIZE
  {
  }

  /** So has one that has stopped at a separator. */
  lemma StopFrees(h: nat, w: nat, sizeRead: nat, freed: nat, headOffset: nat, size: nat)
    requires h < PAGE_SIZE && sizeRead < w && Stopped(h, sizeRead, freed, headOffset)
    ensures freed == FreesAt(h, w, h + sizeRead, size)
  {
  }

  lemma WindowHas(q: Queue, count: nat, n: nat)
    requires q.headOffset < PAGE_SIZE && n < Min(count, SizeSub(q.dataSize, q.headOffset))
    requires q.headOffset + n < |q.mem|
    ensures n < |Window(q, count)| && Window(q, count)[n] == q.mem[q.headOffset + n]
    ensures Window(q, count)[..n] == q.mem[q.headOffset..q.headOffset + n] == Stretch(q.mem, q.headOffset, n)
  {
  }

  lemma WindowIsStretch(q: Queue, count: nat, n: nat)
    requires |Window(q, count)| == n && (n > 0 ==> q.headOffset + n <= |q.mem|)
    ensures Window(q, count) == Stretch(q.mem, q.headOffset, n)
  {
  }

  /** A read of which it is known where the first separator is and how many pages go. */
  lemma DeliverAt(p: Port, count: nat, k: nat, freed: nat, headOffset: nat)
    requires Wf(p) && !p.nullFlag
    requires k == UntilNul(Window(p.queue, count)) && freed == Frees(p.queue, count)
    requires headOffset ==
      if p.queue.headOffset >= PAGE_SIZE then p.queue.headOffset else StopsAt(p.queue, count) % PAGE_SIZE
    requires freed * PAGE_SIZE <= |p.queue.mem|
    ensures Deliver(p, count) ==
      (Walked(p, freed, headOffset, k < |Window(p.queue, count)|), Window(p.queue, count)[..k])
  {
  }

  lemma StoppedIsDeliver(p: Port, count: nat, sizeRead: nat, freed: nat, headOffset: nat)
    requires Wf(p) && !p.nullFlag
    requires StoppedAtNul(p.queue.mem, p.queue.headOffset, Min(count, SizeSub(p.queue.dataSize, p.queue.headOffset)),
                          sizeRead, freed, headOffset)
    requires NulFree(p.queue.mem[p.queue.headOffset..p.queue.headOffset + sizeRead])
    requires freed * PAGE_SIZE <= |p.queue.mem|
    ensures freed == Frees(p.queue, count)
    ensures Deliver(p, count) ==
      (Walked(p, freed, headOffset, true), Stretch(p.queue.mem, p.queue.headOffset, sizeRead))
  {
    var q, w := p.queue, Window(p.queue, count);
    WindowHas(q, count, sizeRead);
    UntilNulUnique(w, sizeRead);
    StopFrees(q.headOffset, |w|, sizeRead, freed, headOffset, |q.mem|);
    DeliverAt(p, count, sizeRead, freed, headOffset);
  }

  lemma WalkIsDeliver(p: Port, count: nat, sizeRead: nat, freed: nat, headOffset: nat)
    requires Wf(p) && !p.nullFlag
    requires Walk(p.queue.headOffset, Min(count, SizeSub(p.queue.dataSize, p.queue.headOffset)),
                  |p.queue.mem| / PAGE_SIZE, sizeRead, freed, headOffset)
    requires sizeRead > 0 ==>
      && p.queue.headOffset + sizeRead <= |p.queue.mem|
      && NulFree(p.queue.mem[p.queue.headOffset..p.queue.headOffset + sizeRead])
    requires freed * PAGE_SIZE <= |p.queue.mem|
    ensures freed == Frees(p.queue, count)
    ensures Deliver(p, count) ==
      (Walked(p, freed, headOffset, false), Stretch(p.queue.mem, p.queue.headOffset, sizeRead))
  {
    var q, w := p.queue, Window(p.queue, count);
    WindowSize(q, count);
    WindowIsStretch(q, count, sizeRead);
    assert w[..sizeRead] == w;
    UntilNulUnique(w, sizeRead);
    WalkFrees(q.headOffset, Min(count, SizeSub(q.dataSize, q.headOffset)), sizeRead, freed, headOffset, |q.mem|);
    DeliverAt(p, count, sizeRead, freed, headOffset);
  }

  lemma ReadIsOverwrite(before: seq<byte>, buf: seq<byte>, mem: seq<byte>, h: nat, sizeRead: nat)
    requires ReadSoFar(before, buf, mem, h, sizeRead)
    ensures sizeRead <= |before| && (sizeRead > 0 ==> h + sizeRead <= |mem|)
    ensures buf == Overwrite(before, 0, Stretch(mem, h, sizeRead))
  {
    if sizeRead > 0 {
      HoldsIsOverwrite(buf, before, 0, mem, h, h + sizeRead);
    } else {
      assert Overwrite(before, 0, []) == before;
    }
  }

  /** The walk of a read has done what `Deliver` says. */
  lemma ReadIsDeliver(p: Port, count: nat, before: seq<byte>, buf: seq<byte>,
                      sizeRead: nat, freed: nat, headOffset: nat, found: bool)
    requires Wf(p) && !p.nullFlag && count <= |before|
    requires ReadSoFar(before, buf, p.queue.mem, p.queue.headOffset, sizeRead)
    requires
      var total := Min(count, SizeSub(p.queue.dataSize, p.queue.headOffset));
      if found then StoppedAtNul(p.queue.mem, p.queue.headOffset, total, sizeRead, freed, headOffset)
      else Walk(p.queue.headOffset, total, |p.queue.mem| / PAGE_SIZE, sizeRead, freed, headOffset)
    requires freed * PAGE_SIZE <= |p.queue.mem|
    ensures freed == Frees(p.queue, count)
    ensures Deliver(p, count).0 == Walked(p, freed, headOffset, found)
    ensures sizeRead == |Deliver(p, count).1| <= |before|
    ensures buf == Overwrite(before, 0, Deliver(p, count).1)
  {
    if found {
      StoppedIsDeliver(p, count, sizeRead, freed, headOffset);
    } else {
      WalkIsDeliver(p, count, sizeRead, freed, headOffset);
    }
    ReadIsOverwrite(before, buf, p.queue.mem, p.queue.headOffset, sizeRead);
  }

  // ----- page ownership -----

  /** Of the pages `memList` the first `n` have gone, and have been freed. */
  ghost predicate FreedFront(memList: seq<array<byte>>, freed: seq<array<byte>>, n: nat,
                             memList': seq<array<byte>>, freed': seq<array<byte>>)
  {
    n <= |memList| && memList' == memList[n..] && freed' == freed + memList[..n]
  }

  lemma LedgerOfFront(memList: seq<array<byte>>, freed: seq<array<byte>>, n: nat,
                      memList': seq<array<byte>>, freed': seq<array<byte>>)
    requires n <= |memList| && memList' == memList[n..] && freed' + memList' == freed + memList
    ensures FreedFront(memList, freed, n, memList', freed')
  {
    assert |freed'| == |freed| + n;
    assert freed' == (freed' + memList')[..|freed'|] == (freed + memList)[..|freed| + n];
  }
}
