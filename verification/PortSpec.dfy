/** The asgn2 driver as a value: the interrupt's ring, the queue of pages behind it,
    the flags, and what each entry point does to them. The functions describe the code
    also in states in which it no longer works as intended. */
module PortSpec {
  import opened Bytes
  import opened Pages
  import opened Gpio

  const BUF_SIZE: nat := 1024
  const SIZE_T: nat := 0x1_0000_0000
  const EACCES := 13

  datatype Ring = Ring(buf: seq<byte>, head: nat, tail: nat)

  /** `mem` is the concatenation of the pages on the list. */
  datatype Queue = Queue(mem: seq<byte>, dataSize: nat,
                         headIndex: int, tailIndex: int, headOffset: nat, tailOffset: nat)

  datatype Port = Port(ring: Ring, queue: Queue,
                       halfByte: byte, sigFlag: bool, scheduled: bool,
                       nullFlag: bool, waitFlag: bool, nullLocation: int, nprocs: int)

  const FRESH_QUEUE := Queue([], 0, 0, 0, 0, 0)

  /** A freshly loaded module; the content of the ring's slots is unknown. */
  ghost predicate Fresh(p: Port) {
    && |p.ring.buf| == BUF_SIZE && p.ring.head == p.ring.tail == 0
    && p.queue == FRESH_QUEUE
    && p.sigFlag && !p.scheduled && !p.nullFlag && p.waitFlag && p.nullLocation == -1
    && p.nprocs == 0
  }

  // ----- the ring -----

  function CircCnt(head: int, tail: int): (n: nat)
    ensures n < BUF_SIZE
  {
    (head - tail) % BUF_SIZE
  }

  function CircSpace(head: int, tail: int): nat {
    CircCnt(tail, head + 1)
  }

  ghost predicate RingOk(r: Ring) {
    |r.buf| == BUF_SIZE && r.head < BUF_SIZE && r.tail < BUF_SIZE
  }

  /** The number of bytes waiting in the ring; the driver produces at its `tail`. */
  function Count(r: Ring): (n: nat)
    ensures n < BUF_SIZE
  {
    CircCnt(r.tail, r.head)
  }

  /** The bytes waiting in the ring, oldest first. */
  function Live(r: Ring): (s: seq<byte>)
    requires RingOk(r)
    ensures |s| == Count(r)
  {
    seq(Count(r), i requires 0 <= i => r.buf[(r.head + i) % BUF_SIZE])
  }

  function Put(r: Ring, b: byte): Ring
    requires RingOk(r)
  {
    if CircSpace(r.tail, r.head) > 0 then
      r.(buf := r.buf[r.tail := b], tail := (r.tail + 1) % BUF_SIZE)
    else if b == 0 then
      r.(buf := r.buf[r.tail := b])
    else
      r
  }

  /** The slot `k` places behind the head. */
  lemma RingIndex(head: nat, k: nat)
    requires head < BUF_SIZE && k < BUF_SIZE
    ensures (head + k) % BUF_SIZE == if head + k < BUF_SIZE then head + k else head + k - BUF_SIZE
  {
  }

  lemma SpaceAndCount(r: Ring)
    requires RingOk(r)
    ensures CircSpace(r.tail, r.head) == BUF_SIZE - 1 - Count(r)
  {
  }

  lemma PutCount(r: Ring, b: byte)
    requires RingOk(r)
    ensures RingOk(Put(r, b))
    ensures Count(Put(r, b)) == if CircSpace(r.tail, r.head) > 0 then Count(r) + 1 else Count(r)
  {
    SpaceAndCount(r);
  }

  // ----- states -----

  ghost predicate Wf(p: Port) {
    && RingOk(p.ring)
    && |p.queue.mem| % PAGE_SIZE == 0
    && p.queue.headIndex == 0
    && p.queue.headOffset <= PAGE_SIZE
    && p.queue.tailOffset < PAGE_SIZE
    && p.nullLocation < PAGE_SIZE
    && (p.scheduled ==> Count(p.ring) > 0)
  }

  /** The bytes a reader has not had yet. */
  function Unread(q: Queue): seq<byte> {
    if q.headOffset <= q.dataSize <= |q.mem| then q.mem[q.headOffset..q.dataSize] else []
  }

  /** Subtraction on size_t. */
  function SizeSub(a: nat, b: nat): nat {
    if b <= a then a - b else (a - b) % SIZE_T
  }

  // ----- the interrupt handler -----

  function HalfTaken(p: Port, nibble: byte): Port
    requires RingOk(p.ring)
  {
    if p.sigFlag then
      p.(halfByte := nibble << 4, sigFlag := false)
    else
      var b := p.halfByte | nibble;
      p.(halfByte := b, sigFlag := true, ring := Put(p.ring, b),
         scheduled := p.scheduled || CircSpace(p.ring.tail, p.ring.head) > 0)
  }

  function Interrupt(p: Port, pins: bv32): Port
    requires RingOk(p.ring)
  {
    HalfTaken(p, HalfByte(pins))
  }

  // ----- the tasklet -----

  /** The bytes a tasklet run has copied after `n` bytes: one memcpy for each page it
      touches, none of which wraps round the ring. `beyond` is what lies in memory
      after the ring. */
  function Copied(r: Ring, tailOffset: nat, beyond: seq<byte>, n: nat): (s: seq<byte>)
    requires RingOk(r) && |beyond| == BUF_SIZE && tailOffset < PAGE_SIZE && n < BUF_SIZE
    ensures |s| == n
  {
    var src := r.buf + beyond;
    var first := Min(n, PAGE_SIZE - tailOffset);
    var next := (r.head + first) % BUF_SIZE;
    src[r.head..r.head + first] + src[next..next + (n - first)]
  }

  /** The memcpys of a run follow each other: the first fills the page up, the next
      takes what is left from where the ring's head then is. */
  lemma CopiedMore(r: Ring, tailOffset: nat, beyond: seq<byte>, m: nat, n: nat)
    requires RingOk(r) && |beyond| == BUF_SIZE && tailOffset < PAGE_SIZE && m + n < BUF_SIZE
    requires (m == 0 && n <= PAGE_SIZE - tailOffset) || m == PAGE_SIZE - tailOffset
    ensures
      var at := (r.head + m) % BUF_SIZE;
      && at + n <= |r.buf + beyond|
      && Copied(r, tailOffset, beyond, m + n) == Copied(r, tailOffset, beyond, m) + (r.buf + beyond)[at..at + n]
  {
  }

  /** Where the tasklet starts to write. */
  function WritePos(q: Queue): nat {
    Max(q.tailIndex, 0) * PAGE_SIZE + q.tailOffset
  }

  /** How many bytes it moves. */
  function TransferSize(p: Port): nat {
    Max(0, Min(Count(p.ring), |p.queue.mem| - WritePos(p.queue)))
  }

  /** What a tasklet run does once the pages it asked for are on the list. */
  function Transfer(p: Port, beyond: seq<byte>): Port
    requires RingOk(p.ring) && |beyond| == BUF_SIZE && p.queue.tailOffset < PAGE_SIZE
  {
    var q := p.queue;
    var n := TransferSize(p);
    var beginOffset := if n == 0 then 0 else (q.tailOffset + n) % PAGE_SIZE;
    p.(ring := p.ring.(head := (p.ring.head + n) % BUF_SIZE),
       queue := q.(mem := if n == 0 then q.mem
                          else Overwrite(q.mem, WritePos(q), Copied(p.ring, q.tailOffset, beyond, n)),
                   dataSize := q.dataSize + n,
                   tailIndex := if beginOffset == 0 then q.tailIndex + 1 else q.tailIndex,
                   tailOffset := beginOffset),
       waitFlag := false)
  }

  /** A whole run, to which the allocator hands pages with the content `grown`. */
  function Drain(p: Port, beyond: seq<byte>, grown: seq<byte>): Port
    requires RingOk(p.ring) && |beyond| == BUF_SIZE && p.queue.tailOffset < PAGE_SIZE
  {
    var p' := p.(queue := p.queue.(mem := p.queue.mem + grown), scheduled := false);
    if |p'.queue.mem| < p.queue.dataSize + Count(p.ring) then p' else Transfer(p', beyond)
  }

  // ----- reading -----

  /** The comparison by which a reader decides whether the queue is empty. */
  predicate LooksEmpty(q: Queue) {
    q.headIndex == q.tailIndex && q.headOffset == q.tailOffset
  }

  /** What a read does before it may have to sleep. */
  datatype Entry = Skipped | Asleep | Ready

  function EnterRead(p: Port): (Port, Entry) {
    if p.queue.headOffset == p.nullLocation then
      (p.(nullLocation := -1, queue := p.queue.(headOffset := p.queue.headOffset + 1)), Skipped)
    else
      var waitFlag := p.waitFlag || LooksEmpty(p.queue);
      (p.(waitFlag := waitFlag), if waitFlag then Asleep else Ready)
  }

  /** The bytes a read of `count` bytes looks at. */
  function Window(q: Queue, count: nat): (w: seq<byte>)
    ensures |w| <= count
  {
    if q.headOffset >= PAGE_SIZE || q.headOffset >= |q.mem| then []
    else q.mem[q.headOffset..q.headOffset + Min(Min(count, SizeSub(q.dataSize, q.headOffset)), |q.mem| - q.headOffset)]
  }

  /** The position in `mem` at which a read of `count` bytes stops. */
  function StopsAt(q: Queue, count: nat): nat {
    q.headOffset + UntilNul(Window(q, count))
  }

  /** The number of pages freed by a read that starts at `h`, looks at `w` bytes of the
      `size` there are, and stops at `e`. */
  function FreesAt(h: nat, w: nat, e: nat, size: nat): nat {
    if h >= PAGE_SIZE then 0
    else if e % PAGE_SIZE != 0 then e / PAGE_SIZE
    else if e < h + w then e / PAGE_SIZE + 1
    else size / PAGE_SIZE
  }

  /** The number of pages a read of `count` bytes frees. */
  function Frees(q: Queue, count: nat): nat {
    FreesAt(q.headOffset, |Window(q, count)|, StopsAt(q, count), |q.mem|)
  }

  /** The number of pages a read frees in any state. */
  function FreedBy(p: Port, count: nat): nat {
    if p.nullFlag then 0 else Frees(p.queue, count)
  }

  lemma FreesFits(q: Queue, count: nat)
    requires |q.mem| % PAGE_SIZE == 0
    ensures Frees(q, count) * PAGE_SIZE <= |q.mem|
  {
    var e, pages := StopsAt(q, count), |q.mem| / PAGE_SIZE;
    assert |q.mem| == pages * PAGE_SIZE;
    if q.headOffset < PAGE_SIZE && q.mem != [] {
      assert e <= |q.mem|;
      assert e / PAGE_SIZE <= pages;
      assert e < |q.mem| ==> e / PAGE_SIZE < pages;
    }
  }

  /** The part of a read after the wait: the new state and the bytes delivered. */
  function Deliver(p: Port, count: nat): (r: (Port, seq<byte>))
    requires |p.queue.mem| % PAGE_SIZE == 0
  {
    if p.nullFlag then (p, [])
    else
      FreesFits(p.queue, count);
      var q := p.queue;
      var w := Window(q, count);
      var found := UntilNul(w) < |w|;
      var freed := Frees(q, count);
      var headOffset := if q.headOffset >= PAGE_SIZE then q.headOffset else StopsAt(q, count) % PAGE_SIZE;
      var q' := Queue(q.mem[freed * PAGE_SIZE..], SizeSub(q.dataSize, freed * PAGE_SIZE),
                      q.headIndex, q.tailIndex - freed, headOffset, q.tailOffset);
      (p.(queue := q', nullFlag := found, nullLocation := if found then headOffset else p.nullLocation),
       w[..UntilNul(w)])
  }

  // ----- opening and closing -----

  /** An open, once its wait for `nprocs` to be 0 is over: a refused one keeps its count. */
  function DoOpen(p: Port, readOnly: bool): (Port, int) {
    (p.(nprocs := p.nprocs + 1), if readOnly then 0 else -EACCES)
  }

  /** Closing the device ends the session. */
  function EndSession(p: Port): Port {
    p.(nullFlag := false, nprocs := p.nprocs - 1)
  }
}
