/** One step of the asgn2 driver at a time: the ring is a bounded queue, the pages
    behind it are a queue, and every place where the code falls short of that is
    pinned down by a condition that can be checked before the step. */
module PortQueue {
  import opened Bytes
  import opened Pages
  import opened PortSpec

  /** The page queue is in order. */
  ghost predicate Sound(q: Queue) {
    && q.headIndex == 0
    && q.dataSize == q.tailIndex * PAGE_SIZE + q.tailOffset
    && |q.mem| % PAGE_SIZE == 0
    && q.dataSize <= |q.mem| < q.dataSize + PAGE_SIZE
    && q.headOffset <= q.dataSize
    && q.headOffset < PAGE_SIZE
    && q.tailOffset < PAGE_SIZE
  }

  /** A remembered separator is the next unread byte. */
  ghost predicate PendingOk(p: Port) {
    p.nullLocation == -1 || (p.nullLocation == p.queue.headOffset && Unread(p.queue) != [] && Unread(p.queue)[0] == 0)
  }

  // ----- the ring -----

  lemma SlotsDiffer(r: Ring, i: nat)
    requires RingOk(r) && i < Count(r)
    ensures (r.head + i) % BUF_SIZE != r.tail
  {
  }

  /** The slot at the tail is not one of the waiting bytes. */
  lemma StoreKeepsLive(r: Ring, b: byte)
    requires RingOk(r)
    ensures Live(r.(buf := r.buf[r.tail := b])) == Live(r)
  {
    var r' := r.(buf := r.buf[r.tail := b]);
    forall i | 0 <= i < Count(r)
      ensures Live(r')[i] == Live(r)[i]
    {
      SlotsDiffer(r, i);
    }
  }

  lemma SlotOfTail(r: Ring)
    requires RingOk(r)
    ensures (r.head + Count(r)) % BUF_SIZE == r.tail
  {
  }

  /** The ring is a queue that holds up to 1023 bytes, wherever its indices are: a byte
      that finds room is appended, any other leaves the waiting bytes alone. */
  lemma PutIsBoundedEnqueue(r: Ring, b: byte)
    requires RingOk(r)
    ensures RingOk(Put(r, b))
    ensures CircSpace(r.tail, r.head) == BUF_SIZE - 1 - |Live(r)|
    ensures Live(Put(r, b)) == if |Live(r)| < BUF_SIZE - 1 then Live(r) + [b] else Live(r)
  {
    var n := Count(r);
    SpaceAndCount(r);
    PutCount(r, b);
    StoreKeepsLive(r, b);
    if n < BUF_SIZE - 1 {
      var r' := r.(buf := r.buf[r.tail := b], tail := (r.tail + 1) % BUF_SIZE);
      assert Put(r, b) == r';
      assert Count(r') == n + 1;
      SlotOfTail(r);
      assert Live(r') == Live(r.(buf := r.buf[r.tail := b])) + [b];
    }
  }

  /** On a full ring a separator goes into the one slot that is never read, just behind the
      waiting bytes; any other byte goes nowhere. */
  lemma PutFull(r: Ring, b: byte)
    requires RingOk(r) && Count(r) == BUF_SIZE - 1
    ensures Put(r, b) == if b == 0 then r.(buf := r.buf[(r.head + 1023) % 1024 := 0]) else r
  {
    SpaceAndCount(r);
    SlotOfTail(r);
  }

  // ----- the emptiness test -----

  lemma EmptinessTestExact(q: Queue)
    requires Sound(q)
    ensures LooksEmpty(q) <==> Unread(q) == []
  {
  }

  // ----- draining -----

  /** What a tasklet run needs to work: something to move, no wrap of the ring, and
      room for all of it on the page it starts on. */
  ghost predicate DrainDomain(p: Port) {
    && 0 < Count(p.ring)
    && p.queue.tailOffset + Count(p.ring) <= PAGE_SIZE
    && p.ring.head + Count(p.ring) <= BUF_SIZE
  }

  /** No memcpy of a tasklet run reaches past the end of the ring. */
  ghost predicate NoWrap(p: Port) {
    var n := Count(p.ring);
    var first := Min(n, PAGE_SIZE - p.queue.tailOffset);
    p.ring.head + first <= BUF_SIZE && (p.ring.head + first) % BUF_SIZE + (n - first) <= BUF_SIZE
  }

  lemma CopiedInOrder(p: Port, beyond: seq<byte>)
    requires RingOk(p.ring) && p.queue.tailOffset < PAGE_SIZE && |beyond| == BUF_SIZE
    requires NoWrap(p)
    ensures Copied(p.ring, p.queue.tailOffset, beyond, Count(p.ring)) == Live(p.ring)
  {
    var r, n := p.ring, Count(p.ring);
    var first := Min(n, PAGE_SIZE - p.queue.tailOffset);
    var next := (r.head + first) % BUF_SIZE;
    var copied := Copied(r, p.queue.tailOffset, beyond, n);
    RingIndex(r.head, first);
    forall k | 0 <= k < n
      ensures copied[k] == Live(r)[k]
    {
      RingIndex(r.head, k);
      if k < first {
        assert copied[k] == (r.buf + beyond)[r.head + k];
      } else {
        assert copied[k] == (r.buf + beyond)[next + (k - first)];
      }
    }
  }

  /** A memcpy that wraps takes a byte from behind the ring for the one in slot 0. */
  lemma WrapReadsBeyond(p: Port, beyond: seq<byte>) returns (k: nat)
    requires RingOk(p.ring) && p.queue.tailOffset < PAGE_SIZE && |beyond| == BUF_SIZE
    requires !NoWrap(p)
    ensures k < Count(p.ring)
    ensures Copied(p.ring, p.queue.tailOffset, beyond, Count(p.ring))[k] == beyond[0]
    ensures Live(p.ring)[k] == p.ring.buf[0]
  {
    var r, n := p.ring, Count(p.ring);
    var first := Min(n, PAGE_SIZE - p.queue.tailOffset);
    RingIndex(r.head, first);
    k := if r.head + first > BUF_SIZE then BUF_SIZE - r.head
         else first + BUF_SIZE - (r.head + first) % BUF_SIZE;
    RingIndex(r.head, k);
  }

  ghost predicate CopiesRight(p: Port, beyond: seq<byte>)
    requires RingOk(p.ring) && p.queue.tailOffset < PAGE_SIZE && |beyond| == BUF_SIZE
  {
    Copied(p.ring, p.queue.tailOffset, beyond, Count(p.ring)) == Live(p.ring)
  }

  function WithSlotZero(p: Port, b: byte): Port
    requires RingOk(p.ring)
  {
    p.(ring := p.ring.(buf := p.ring.buf[0 := b]))
  }

  /** Whatever lies behind the ring, a tasklet run is right for every byte in slot 0
      exactly if no memcpy wraps; one that does loses every byte in slot 0 but the one
      that happens to equal the first byte behind the ring. */
  lemma WrapLosesSlotZero(p: Port, beyond: seq<byte>)
    requires RingOk(p.ring) && p.queue.tailOffset < PAGE_SIZE && |beyond| == BUF_SIZE
    ensures NoWrap(p) <==> forall b: byte :: CopiesRight(WithSlotZero(p, b), beyond)
    ensures !NoWrap(p) ==> forall b: byte | b != beyond[0] :: !CopiesRight(WithSlotZero(p, b), beyond)
  {
    forall b: byte
      ensures NoWrap(p) ==> CopiesRight(WithSlotZero(p, b), beyond)
      ensures !NoWrap(p) && b != beyond[0] ==> !CopiesRight(WithSlotZero(p, b), beyond)
    {
      var p' := WithSlotZero(p, b);
      if NoWrap(p) {
        CopiedInOrder(p', beyond);
      } else {
        var k := WrapReadsBeyond(p', beyond);
      }
    }
    if !NoWrap(p) {
      assert !CopiesRight(WithSlotZero(p, beyond[0] + 1), beyond);
    }
  }

  lemma CopiedFromBeyond(p: Port) returns (beyond: seq<byte>)
    requires RingOk(p.ring) && p.queue.tailOffset < PAGE_SIZE
    requires !NoWrap(p)
    ensures |beyond| == BUF_SIZE
    ensures !CopiesRight(p, beyond)
  {
    beyond := seq(BUF_SIZE, _ => p.ring.buf[0] + 1);
    var k := WrapReadsBeyond(p, beyond);
  }

  lemma AppendedAtEnd(mem: seq<byte>, from: nat, at: nat, t: seq<byte>)
    requires from <= at && at + |t| <= |mem|
    ensures Overwrite(mem, at, t)[from..at + |t|] == mem[from..at] + t
  {
  }

  /** A tasklet run that gets the pages it needs empties the ring... */
  lemma DrainShape(p: Port, beyond: seq<byte>, grown: seq<byte>)
    requires Wf(p) && Sound(p.queue) && |beyond| == BUF_SIZE
    requires |p.queue.mem| + |grown| >= p.queue.dataSize + Count(p.ring)
    ensures
      var p' := Drain(p, beyond, grown);
      && Live(p'.ring) == []
      && !p'.scheduled && !p'.waitFlag
      && p'.queue.dataSize == p.queue.dataSize + Count(p.ring)
      && |p'.queue.mem| == |p.queue.mem| + |grown|
      && p'.queue.headOffset == p.queue.headOffset
  {
    var p1 := p.(queue := p.queue.(mem := p.queue.mem + grown), scheduled := false);
    assert WritePos(p1.queue) == p.queue.dataSize;
    SlotOfTail(p.ring);
    assert Transfer(p1, beyond).ring.head == p.ring.tail;
  }

  lemma DrainWrites(p: Port, beyond: seq<byte>, grown: seq<byte>)
    requires Wf(p) && Sound(p.queue) && |beyond| == BUF_SIZE
    requires |p.queue.mem| + |grown| >= p.queue.dataSize + Count(p.ring)
    ensures Drain(p, beyond, grown).queue.mem ==
      Overwrite(p.queue.mem + grown, p.queue.dataSize, Copied(p.ring, p.queue.tailOffset, beyond, Count(p.ring)))
  {
    assert WritePos(p.queue) == p.queue.dataSize;
  }

  lemma UnreadWritten(q: Queue, q': Queue, grown: seq<byte>, copied: seq<byte>)
    requires q.headOffset <= q.dataSize <= |q.mem| && q.dataSize + |copied| <= |q.mem + grown|
    requires q'.mem == Overwrite(q.mem + grown, q.dataSize, copied)
    requires q'.headOffset == q.headOffset && q'.dataSize == q.dataSize + |copied|
    ensures Unread(q') == Unread(q) + copied
  {
    AppendedAtEnd(q.mem + grown, q.headOffset, q.dataSize, copied);
    assert (q.mem + grown)[q.headOffset..q.dataSize] == Unread(q);
  }

  /** ... and writes what it copies at the end of the unread bytes. */
  lemma DrainAppends(p: Port, beyond: seq<byte>, grown: seq<byte>)
    requires Wf(p) && Sound(p.queue) && |beyond| == BUF_SIZE
    requires |p.queue.mem| + |grown| >= p.queue.dataSize + Count(p.ring)
    ensures Unread(Drain(p, beyond, grown).queue)
         == Unread(p.queue) + Copied(p.ring, p.queue.tailOffset, beyond, Count(p.ring))
  {
    DrainShape(p, beyond, grown);
    DrainWrites(p, beyond, grown);
    UnreadWritten(p.queue, Drain(p, beyond, grown).queue, grown,
                  Copied(p.ring, p.queue.tailOffset, beyond, Count(p.ring)));
  }

  /** The end of the data, in pages and offset, after `n` more bytes. */
  lemma TailArithmetic(tailIndex: int, tailOffset: nat, n: nat, tailIndex': int, tailOffset': nat)
    requires tailOffset < PAGE_SIZE && n < BUF_SIZE
    requires tailOffset' == if n == 0 then 0 else (tailOffset + n) % PAGE_SIZE
    requires tailIndex' == if tailOffset' == 0 then tailIndex + 1 else tailIndex
    ensures tailIndex * PAGE_SIZE + tailOffset + n == tailIndex' * PAGE_SIZE + tailOffset' <==>
      0 < n && tailOffset + n <= PAGE_SIZE
  {
    NextOffset(tailOffset, n);
  }

  /** A queue that has got `n` more bytes at its end is in order exactly if they fit. */
  lemma SoundAfter(q: Queue, q': Queue, n: nat)
    requires Sound(q) && n < BUF_SIZE
    requires q'.headIndex == 0 && q'.headOffset == q.headOffset && q'.dataSize == q.dataSize + n
    requires q'.tailOffset == if n == 0 then 0 else (q.tailOffset + n) % PAGE_SIZE
    requires q'.tailIndex == if q'.tailOffset == 0 then q.tailIndex + 1 else q.tailIndex
    requires |q'.mem| % PAGE_SIZE == 0 && q'.dataSize <= |q'.mem| < q'.dataSize + PAGE_SIZE
    ensures Sound(q') <==> 0 < n && q.tailOffset + n <= PAGE_SIZE
  {
    TailArithmetic(q.tailIndex, q.tailOffset, n, q'.tailIndex, q'.tailOffset);
  }

  /** The allocation loop leaves less than a page to spare. */
  lemma GrowthFits(have: nat, size: nat, n: nat, grown: seq<byte>)
    requires have % PAGE_SIZE == 0 && size <= have < size + PAGE_SIZE
    requires Growth(have, size + n, grown) && have + |grown| >= size + n
    ensures (have + |grown|) % PAGE_SIZE == 0
    ensures size + n <= have + |grown| < size + n + PAGE_SIZE
  {
    var a, b := have / PAGE_SIZE, |grown| / PAGE_SIZE;
    assert have + |grown| == (a + b) * PAGE_SIZE;
  }

  lemma DrainTail(p: Port, beyond: seq<byte>, grown: seq<byte>)
    requires Wf(p) && Sound(p.queue) && |beyond| == BUF_SIZE
    requires |p.queue.mem| + |grown| >= p.queue.dataSize + Count(p.ring)
    ensures
      var q, q', n := p.queue, Drain(p, beyond, grown).queue, Count(p.ring);
      && q'.headIndex == 0
      && q'.tailOffset == (if n == 0 then 0 else (q.tailOffset + n) % PAGE_SIZE)
      && q'.tailIndex == if q'.tailOffset == 0 then q.tailIndex + 1 else q.tailIndex
  {
    assert WritePos(p.queue) == p.queue.dataSize;
  }

  lemma DrainMovesHead(p: Port, beyond: seq<byte>, grown: seq<byte>)
    requires Wf(p) && Sound(p.queue) && |beyond| == BUF_SIZE
    requires |p.queue.mem| + |grown| >= p.queue.dataSize + Count(p.ring)
    ensures Drain(p, beyond, grown).ring == p.ring.(head := (p.ring.head + Count(p.ring)) % BUF_SIZE)
  {
    assert WritePos(p.queue) == p.queue.dataSize;
  }

  lemma DrainOrder(p: Port, beyond: seq<byte>, grown: seq<byte>)
    requires Wf(p) && Sound(p.queue) && |beyond| == BUF_SIZE
    requires Growth(|p.queue.mem|, p.queue.dataSize + Count(p.ring), grown)
    requires |p.queue.mem| + |grown| >= p.queue.dataSize + Count(p.ring)
    ensures Sound(Drain(p, beyond, grown).queue) <==>
      0 < Count(p.ring) && p.queue.tailOffset + Count(p.ring) <= PAGE_SIZE
  {
    DrainShape(p, beyond, grown);
    DrainTail(p, beyond, grown);
    GrowthFits(|p.queue.mem|, p.queue.dataSize, Count(p.ring), grown);
    SoundAfter(p.queue, Drain(p, beyond, grown).queue, Count(p.ring));
  }

  /** Draining, when the allocator delivers. The bytes of the ring are appended to the
      unread ones, whatever lies in memory beyond the ring, exactly when no memcpy
      wraps; and the queue stays in order exactly when the run has something to move
      and does not run over the page it starts on. */
  lemma DrainExactly(p: Port, grown: seq<byte>)
    requires Wf(p) && Sound(p.queue)
    requires Growth(|p.queue.mem|, p.queue.dataSize + Count(p.ring), grown)
    requires |p.queue.mem| + |grown| >= p.queue.dataSize + Count(p.ring)
    ensures NoWrap(p) <==>
      forall beyond: seq<byte> | |beyond| == BUF_SIZE ::
        Unread(Drain(p, beyond, grown).queue) == Unread(p.queue) + Live(p.ring)
    ensures forall beyond: seq<byte> | |beyond| == BUF_SIZE ::
      Sound(Drain(p, beyond, grown).queue) <==> 0 < Count(p.ring) && p.queue.tailOffset + Count(p.ring) <= PAGE_SIZE
    ensures forall beyond: seq<byte> | |beyond| == BUF_SIZE :: Live(Drain(p, beyond, grown).ring) == []
  {
    forall beyond: seq<byte> | |beyond| == BUF_SIZE
      ensures Live(Drain(p, beyond, grown).ring) == []
      ensures Sound(Drain(p, beyond, grown).queue) <==>
        0 < Count(p.ring) && p.queue.tailOffset + Count(p.ring) <= PAGE_SIZE
    {
      DrainOrder(p, beyond, grown);
      DrainShape(p, beyond, grown);
    }
    if NoWrap(p) {
      forall beyond: seq<byte> | |beyond| == BUF_SIZE
        ensures Unread(Drain(p, beyond, grown).queue) == Unread(p.queue) + Live(p.ring)
      {
        DrainAppends(p, beyond, grown);
        CopiedInOrder(p, beyond);
      }
    }
    if !NoWrap(p) {
      var beyond := CopiedFromBeyond(p);
      DrainAppends(p, beyond, grown);
      var copied := Copied(p.ring, p.queue.tailOffset, beyond, Count(p.ring));
      assert (Unread(p.queue) + copied)[|Unread(p.queue)|..] == copied;
      assert (Unread(p.queue) + Live(p.ring))[|Unread(p.queue)|..] == Live(p.ring);
    }
  }

  /** The drain domain is exactly where a run both appends the ring and keeps order. */
  lemma DrainDomainExactly(p: Port, grown: seq<byte>)
    requires Wf(p) && Sound(p.queue)
    requires Growth(|p.queue.mem|, p.queue.dataSize + Count(p.ring), grown)
    requires |p.queue.mem| + |grown| >= p.queue.dataSize + Count(p.ring)
    ensures DrainDomain(p) <==>
      forall beyond: seq<byte> | |beyond| == BUF_SIZE ::
        var q' := Drain(p, beyond, grown).queue;
        Sound(q') && Unread(q') == Unread(p.queue) + Live(p.ring)
  {
    DrainExactly(p, grown);
    if 0 < Count(p.ring) && p.queue.tailOffset + Count(p.ring) <= PAGE_SIZE {
      assert DrainDomain(p) <==> NoWrap(p);
    } else {
      var beyond := seq(BUF_SIZE, _ => 0);
      assert !Sound(Drain(p, beyond, grown).queue);
    }
  }

  /** A run that is refused a page leaves queue and ring as they were. */
  lemma DrainRefused(p: Port, beyond: seq<byte>, grown: seq<byte>)
    requires Wf(p) && Sound(p.queue) && |beyond| == BUF_SIZE
    requires Growth(|p.queue.mem|, p.queue.dataSize + Count(p.ring), grown)
    requires |p.queue.mem| + |grown| < p.queue.dataSize + Count(p.ring)
    ensures grown == []
    ensures Drain(p, beyond, grown) == p.(scheduled := false)
  {
    assert p.queue.mem + [] == p.queue.mem;
  }

  /** In any state, a run that is refused a page after it was given those of `first`, and
      then one that is given those of `rest`, come to one run that is given all of them. */
  lemma RefusedThenDrained(p: Port, beyond: seq<byte>, beyond': seq<byte>, first: seq<byte>, rest: seq<byte>)
    requires RingOk(p.ring) && |beyond| == |beyond'| == BUF_SIZE && p.queue.tailOffset < PAGE_SIZE
    requires |p.queue.mem| + |first| < p.queue.dataSize + Count(p.ring)
    ensures Drain(Drain(p, beyond, first), beyond', rest) == Drain(p, beyond', first + rest)
  {
    assert p.queue.mem + first + rest == p.queue.mem + (first + rest);
  }

  // ----- reading -----

  /** A read neither stops on a page boundary nor short of one that is its last. */
  ghost predicate ReadDomain(q: Queue, count: nat) {
    StopsAt(q, count) % PAGE_SIZE != 0 || StopsAt(q, count) == |q.mem|
  }

  lemma WindowIsPrefix(q: Queue, count: nat)
    requires Sound(q)
    ensures Window(q, count) == Unread(q)[..Min(count, |Unread(q)|)]
  {
    var n := Min(count, |Unread(q)|);
    if q.mem != [] {
      assert q.headOffset < |q.mem|;
      assert Window(q, count) == q.mem[q.headOffset..q.headOffset + n];
    }
    assert Unread(q)[..n] == q.mem[q.headOffset..q.headOffset + n];
  }

  /** A read delivers the bytes before the first separator in the first `count` unread
      ones, and ends the session exactly if there is one. */
  lemma DeliversUntilNul(p: Port, count: nat)
    requires Wf(p) && Sound(p.queue) && !p.nullFlag
    ensures
      var u := Unread(p.queue);
      var w := u[..Min(count, |u|)];
      var (p', out) := Deliver(p, count);
      && out == w[..UntilNul(w)] && NulFree(out) && out <= u
      && (p'.nullFlag <==> UntilNul(w) < |w|)
      && (p'.nullFlag ==> u[|out|] == 0 && p'.nullLocation == p'.queue.headOffset)
      && (!p'.nullFlag ==> |out| == Min(count, |u|) && p'.nullLocation == p.nullLocation)
  {
    WindowIsPrefix(p.queue, count);
  }

  /** A queue that has lost its first `k` pages, and been read some way into the next one,
      is still in order. */
  lemma SoundDropped(q: Queue, q': Queue, k: nat)
    requires Sound(q) && k * PAGE_SIZE + q'.headOffset <= q.dataSize
    requires q'.headIndex == 0 && q'.headOffset < PAGE_SIZE && q'.tailOffset == q.tailOffset
    requires q'.tailIndex == q.tailIndex - k
    requires q'.dataSize == q.dataSize - k * PAGE_SIZE
    requires |q'.mem| == |q.mem| - k * PAGE_SIZE
    ensures Sound(q')
  {
    WholePagesLeft(|q.mem|, k);
  }

  lemma DeliverOrder(p: Port, count: nat)
    requires Wf(p) && Sound(p.queue) && !p.nullFlag && ReadDomain(p.queue, count)
    ensures Frees(p.queue, count) == StopsAt(p.queue, count) / PAGE_SIZE
    ensures Sound(Deliver(p, count).0.queue)
  {
    var q, e := p.queue, StopsAt(p.queue, count);
    WindowIsPrefix(q, count);
    assert e <= q.dataSize;
    assert Frees(q, count) == e / PAGE_SIZE;
    SoundDropped(q, Deliver(p, count).0.queue, e / PAGE_SIZE);
  }

  lemma DropSlice(s: seq<byte>, from: nat, to: nat, k: nat)
    requires from + k <= to <= |s|
    ensures s[from..to][k..] == s[from + k..to]
  {
  }

  /** A queue that has lost its first `freed` bytes, of the `e` that have been read. */
  lemma LeftInside(q: Queue, q': Queue, e: nat, freed: nat)
    requires q.headOffset <= e <= q.dataSize <= |q.mem| && freed + q'.headOffset == e
    requires q'.mem == q.mem[freed..] && q'.dataSize == q.dataSize - freed
    ensures Unread(q') == q.mem[e..q.dataSize] == Unread(q)[e - q.headOffset..]
  {
    DropSlice(q.mem, q.headOffset, q.dataSize, e - q.headOffset);
  }

  /** Inside the domain a read leaves what it did not deliver, and frees exactly the
      pages that are used up. */
  lemma DeliverInDomain(p: Port, count: nat)
    requires Wf(p) && Sound(p.queue) && !p.nullFlag && ReadDomain(p.queue, count)
    ensures
      var (p', out) := Deliver(p, count);
      && Sound(p'.queue)
      && Unread(p'.queue) == Unread(p.queue)[|out|..]
      && Frees(p.queue, count) == (p.queue.headOffset + |out|) / PAGE_SIZE
  {
    var q, e := p.queue, StopsAt(p.queue, count);
    WindowIsPrefix(q, count);
    DeliverOrder(p, count);
    LeftInside(q, Deliver(p, count).0.queue, e, e / PAGE_SIZE * PAGE_SIZE);
  }

  lemma WrappedSize(a: nat, b: nat)
    requires a < b <= a + PAGE_SIZE
    ensures SizeSub(a, b) > 0
  {
  }

  /** The pages freed by a read that stops on a page boundary. */
  lemma FreesOnBoundary(h: nat, w: nat, e: nat, size: nat)
    requires h < PAGE_SIZE && e % PAGE_SIZE == 0 && size % PAGE_SIZE == 0
    ensures FreesAt(h, w, e, size) * PAGE_SIZE == if e < h + w then e + PAGE_SIZE else size
  {
  }

  /** A queue that has lost its first `freed` bytes and is to be read from its start. */
  lemma LeftOver(q: Queue, q': Queue, freed: nat)
    requires q.dataSize <= |q.mem| < q.dataSize + PAGE_SIZE && freed <= |q.mem|
    requires q'.mem == q.mem[freed..] && q'.headOffset == 0 && q'.dataSize == SizeSub(q.dataSize, freed)
    requires freed <= q.dataSize || freed == |q.mem|
    ensures Unread(q') == if freed <= q.dataSize then q.mem[freed..q.dataSize] else []
  {
    if q.dataSize < freed {
      WrappedSize(q.dataSize, freed);
    } else {
      DropSlice(q.mem, freed, |q.mem|, 0);
    }
  }

  lemma StopBeforeEnd(e: nat, dataSize: nat, size: nat)
    requires e % PAGE_SIZE == 0 && size % PAGE_SIZE == 0 && e != size
    requires e <= dataSize <= size < dataSize + PAGE_SIZE
    ensures e < dataSize
  {
  }

  lemma StopOutsideDomain(q: Queue, count: nat)
    requires Sound(q) && !ReadDomain(q, count)
    ensures
      var e, w := StopsAt(q, count), Window(q, count);
      && e == q.headOffset + UntilNul(w) < q.dataSize && e % PAGE_SIZE == 0
      && Frees(q, count) * PAGE_SIZE == if UntilNul(w) < |w| then e + PAGE_SIZE else |q.mem|
  {
    WindowIsPrefix(q, count);
    StopBeforeEnd(StopsAt(q, count), q.dataSize, |q.mem|);
    FreesOnBoundary(q.headOffset, |Window(q, count)|, StopsAt(q, count), |q.mem|);
  }

  /** The pages end where a page ends, and less than a page behind the data. */
  lemma PageAhead(e: nat, dataSize: nat, size: nat)
    requires e % PAGE_SIZE == 0 && size % PAGE_SIZE == 0 && e < dataSize <= size < dataSize + PAGE_SIZE
    ensures e + PAGE_SIZE <= dataSize || e + PAGE_SIZE == size
  {
  }

  lemma DeliverLoses(p: Port, count: nat, e: nat, freed: nat)
    requires Wf(p) && Sound(p.queue) && !p.nullFlag && !ReadDomain(p.queue, count)
    requires e == StopsAt(p.queue, count) && freed == Frees(p.queue, count) * PAGE_SIZE
    ensures
      var q := p.queue;
      var (p', out) := Deliver(p, count);
      && e == q.headOffset + |out| < q.dataSize && e % PAGE_SIZE == 0
      && freed == (if p'.nullFlag then e + PAGE_SIZE else |q.mem|)
      && Unread(p'.queue) == if freed <= q.dataSize then q.mem[freed..q.dataSize] else []
  {
    StopOutsideDomain(p.queue, count);
    FreesFits(p.queue, count);
    PageAhead(e, p.queue.dataSize, |p.queue.mem|);
    LeftOver(p.queue, Deliver(p, count).0.queue, freed);
  }

  /** What a read loses outside the domain: if a separator stopped it, the whole page that
      the separator starts; otherwise all that was left. */
  lemma DeliverLosesExactly(p: Port, count: nat)
    requires Wf(p) && Sound(p.queue) && !p.nullFlag && !ReadDomain(p.queue, count)
    ensures
      var u := Unread(p.queue);
      var (p', out) := Deliver(p, count);
      && |out| < |u| && (p.queue.headOffset + |out|) % PAGE_SIZE == 0
      && Unread(p'.queue) == if p'.nullFlag && |out| + PAGE_SIZE <= |u| then u[|out| + PAGE_SIZE..] else []
  {
    var q, k := p.queue, |Deliver(p, count).1|;
    DeliverLoses(p, count, StopsAt(q, count), Frees(q, count) * PAGE_SIZE);
    if k + PAGE_SIZE <= |Unread(q)| {
      DropSlice(q.mem, q.headOffset, q.dataSize, k + PAGE_SIZE);
    }
  }

  /** That is at least one byte that nobody has read. */
  lemma DeliverOutsideDomain(p: Port, count: nat)
    requires Wf(p) && Sound(p.queue) && !p.nullFlag && !ReadDomain(p.queue, count)
    ensures
      var (p', out) := Deliver(p, count);
      |Unread(p'.queue)| < |Unread(p.queue)| - |out|
  {
    DeliverLosesExactly(p, count);
  }

  /** A read hands on the rest of the queue exactly inside the domain. */
  lemma ReadDomainExactly(p: Port, count: nat)
    requires Wf(p) && Sound(p.queue) && !p.nullFlag
    ensures
      var (p', out) := Deliver(p, count);
      ReadDomain(p.queue, count) <==> Sound(p'.queue) && Unread(p'.queue) == Unread(p.queue)[|out|..]
  {
    if ReadDomain(p.queue, count) {
      DeliverInDomain(p, count);
    } else {
      DeliverOutsideDomain(p, count);
    }
  }

  /** A reader that asks for everything there is stays inside the domain exactly if the
      first separator, should there be one, is not the first byte of a page. */
  lemma ReadAllDomain(q: Queue, count: nat)
    requires Sound(q) && |Unread(q)| <= count
    ensures
      var k := UntilNul(Unread(q));
      ReadDomain(q, count) <==> k == |Unread(q)| || (q.headOffset + k) % PAGE_SIZE != 0
  {
    WindowIsPrefix(q, count);
    assert Window(q, count) == Unread(q);
    assert StopsAt(q, count) == q.headOffset + UntilNul(Unread(q));
  }

  // ----- skipping a separator -----

  ghost predicate SkipDomain(q: Queue) {
    q.headOffset + 1 < PAGE_SIZE
  }

  /** A read that starts at the remembered separator drops that one byte; the queue
      stays in order exactly when the separator is not the last byte of its page. */
  lemma SkipExactly(p: Port)
    requires Wf(p) && Sound(p.queue) && PendingOk(p) && p.nullLocation == p.queue.headOffset
    ensures
      var (p', entry) := EnterRead(p);
      && entry == Skipped
      && p'.nullLocation == -1
      && Unread(p.queue)[0] == 0
      && Unread(p'.queue) == Unread(p.queue)[1..]
      && (Sound(p'.queue) <==> SkipDomain(p.queue))
  {
  }
}
