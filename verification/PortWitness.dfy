/** Runs from a freshly loaded module: everything can be sent promptly, and each state
    in which the asgn2 pipeline fails can be reached. */
module PortWitness {
  import opened Bytes
  import opened Pages
  import opened Gpio
  import opened PortSpec
  import opened PortQueue
  import opened PortRuns
  import opened PortPrompt
  import opened PortStuck
  import opened PortCalls

  // ----- sending -----

  /** A run in which nobody reads or closes, and which drains promptly. */
  ghost predicate Feeds(w: World, es: seq<Event>): (prompt: bool)
    requires Wf(w.port)
    ensures prompt ==> Possible(w, es)
    decreases |es|
  {
    es == [] ||
    (var e := es[0];
     && Enabled(w, e) && PromptStep(w.port, e) && (e.Edge? || e.Tasklet? || e.Open?)
     && (StepWf(w, e); Feeds(Step(w, e), es[1..])))
  }

  lemma {:induction false} FeedsPromptly(w: World, es: seq<Event>)
    requires Wf(w.port) && Feeds(w, es)
    ensures Prompt(w, es) && ReadsClean(w, es)
    decreases |es|
  {
    if es != [] {
      StepWf(w, es[0]);
      FeedsPromptly(Step(w, es[0]), es[1..]);
    }
  }

  /** Nothing is on its way: no half-byte, no byte in the ring, no tasklet run. */
  ghost predicate Idle(w: World) {
    Good(w) && OneAtATime(w) && w.port.sigFlag && !w.port.scheduled
  }

  /** Readers, openers and closers have not done anything. */
  ghost predicate SameReaders(w: World, w': World) {
    && w'.consumed == w.consumed && w'.delivered == w.delivered
    && w'.handles == w.handles && w'.port.nprocs == w.port.nprocs
    && w'.port.queue.headOffset == w.port.queue.headOffset
    && w'.port.nullFlag == w.port.nullFlag && w'.port.nullLocation == w.port.nullLocation
  }

  /** The pin states for `bs`, with nothing on the other pins. */
  function Signal(bs: seq<byte>): (pins: seq<bv32>) {
    Send(bs, seq(2 * |bs|, _ => 0))
  }

  lemma SignalMore(b: byte, bs: seq<byte>)
    ensures Signal([b] + bs) == Signal([b]) + Signal(bs)
  {
    forall i | 0 <= i < 2 * |bs| + 2
      ensures Signal([b] + bs)[i] == (Signal([b]) + Signal(bs))[i]
    {
      if i < 2 {
        assert i / 2 == 0;
      } else {
        assert (i - 2) / 2 == i / 2 - 1 && (i - 2) % 2 == i % 2;
        assert ([b] + bs)[i / 2] == bs[(i - 2) / 2];
      }
    }
  }

  /** `bs` has arrived behind what was unread. */
  ghost predicate Arrives(w: World, w': World, bs: seq<byte>) {
    && Idle(w') && SameReaders(w, w')
    && Unread(w'.port.queue) == Unread(w.port.queue) + bs
    && w'.port.ring.head == (w.port.ring.head + |bs|) % BUF_SIZE
    && w'.pins == w.pins + Signal(bs)
    && (bs != [] ==> !w'.port.waitFlag)
  }

  lemma NothingArrives(w: World)
    requires Idle(w)
    ensures Arrives(w, w, [])
  {
    assert Signal([]) == [];
  }

  lemma HeadAfter(head: nat, head': nat, n: nat)
    requires head' == (head + 1) % BUF_SIZE
    ensures (head' + n) % BUF_SIZE == (head + (1 + n)) % BUF_SIZE
  {
  }

  lemma ArrivesMore(w: World, v: World, u: World, b: byte, bs: seq<byte>)
    requires Arrives(w, v, [b]) && Arrives(v, u, bs)
    ensures Arrives(w, u, [b] + bs)
  {
    SignalMore(b, bs);
    HeadAfter(w.port.ring.head, v.port.ring.head, |bs|);
    assert |[b] + bs| == 1 + |bs|;
    assert Unread(u.port.queue) == Unread(w.port.queue) + ([b] + bs);
    assert u.pins == w.pins + (Signal([b]) + Signal(bs));
  }

  lemma ArrivesAll(w: World, v: World, u: World, bs: seq<byte>)
    requires bs != [] && Arrives(w, v, [bs[0]]) && Arrives(v, u, bs[1..])
    ensures Arrives(w, u, bs)
  {
    ArrivesMore(w, v, u, bs[0], bs[1..]);
    assert [bs[0]] + bs[1..] == bs;
  }

  // ----- bytes into the ring -----

  /** What the two interrupts for `b` do when there is room. */
  ghost function Pushed(w: World, b: byte): World
    requires Wf(w.port)
  {
    w.(port := w.port.(halfByte := b, ring := Put(w.port.ring, b), scheduled := true),
       pins := w.pins + Signal([b]), decoded := w.decoded + [b], accepted := w.accepted + [b])
  }

  lemma HighHalf(w: World, b: byte) returns (e: Event)
    requires Wf(w.port) && w.port.sigFlag
    ensures e.Edge? && e.pins == Signal([b])[0]
    ensures Step(w, e) == w.(port := w.port.(halfByte := Half(b, 0) << 4, sigFlag := false), pins := w.pins + [e.pins])
  {
    e := Edge(Drive(Half(b, 0), 0));
    DriveThenRead(Half(b, 0), 0);
  }

  lemma LowHalf(w: World, b: byte) returns (e: Event)
    requires Wf(w.port) && !w.port.sigFlag && w.port.halfByte == Half(b, 0) << 4 && Count(w.port.ring) < BUF_SIZE - 1
    ensures e.Edge? && e.pins == Signal([b])[1]
    ensures Step(w, e) ==
      w.(port := w.port.(halfByte := b, sigFlag := true, ring := Put(w.port.ring, b), scheduled := true),
         pins := w.pins + [e.pins], decoded := w.decoded + [b], accepted := w.accepted + [b])
  {
    e := Edge(Drive(Half(b, 1), 0));
    DriveThenRead(Half(b, 1), 0);
    HalvesJoin(b);
    SpaceAndCount(w.port.ring);
  }

  lemma BothHalves(w: World, b: byte) returns (high: Event, v: World, low: Event)
    requires Wf(w.port) && w.port.sigFlag && Count(w.port.ring) < BUF_SIZE - 1
    ensures high.Edge? && low.Edge? && Signal([b]) == [high.pins, low.pins]
    ensures v == Step(w, high) && Wf(v.port) && v.port.scheduled == w.port.scheduled && Step(v, low) == Pushed(w, b)
  {
    high := HighHalf(w, b);
    v := Step(w, high);
    low := LowHalf(v, b);
    StepWf(w, high);
    assert w.pins + [high.pins] + [low.pins] == w.pins + Signal([b]);
  }

  lemma PushByte(w: World, b: byte) returns (es: seq<Event>)
    requires Wf(w.port) && w.port.sigFlag && Count(w.port.ring) < BUF_SIZE - 1
    ensures Possible(w, es) && Run(w, es) == Pushed(w, b)
  {
    var high, v, low := BothHalves(w, b);
    RunOne(w, high);
    RunOne(v, low);
    RunAppend(w, [high], [low]);
    es := [high] + [low];
  }

  /** `bs` has been put into the ring, and no tasklet has run. */
  ghost predicate Waits(w: World, w': World, bs: seq<byte>)
    requires RingOk(w.port.ring)
  {
    && Good(w') && SameReaders(w, w') && w'.port.sigFlag
    && w'.port.queue == w.port.queue && w'.port.ring.head == w.port.ring.head
    && w'.port.waitFlag == w.port.waitFlag
    && Live(w'.port.ring) == Live(w.port.ring) + bs
    && (bs != [] ==> w'.port.scheduled)
  }

  lemma PushedGood(w: World, b: byte)
    requires Good(w) && w.port.sigFlag && Count(w.port.ring) < BUF_SIZE - 1
    ensures Good(Pushed(w, b)) && Live(Pushed(w, b).port.ring) == Live(w.port.ring) + [b]
  {
    PutIsBoundedEnqueue(w.port.ring, b);
  }

  lemma PushedWaits(w: World, v: World, bs: seq<byte>, b: byte)
    requires RingOk(w.port.ring) && Waits(w, v, bs) && Count(v.port.ring) < BUF_SIZE - 1
    ensures Waits(w, Pushed(v, b), bs + [b])
  {
    PushedGood(v, b);
    assert Live(w.port.ring) + (bs + [b]) == Live(w.port.ring) + bs + [b];
  }

  lemma PushMore(w: World, es: seq<Event>, bs: seq<byte>, b: byte) returns (es': seq<Event>)
    requires Wf(w.port) && Possible(w, es) && Waits(w, Run(w, es), bs) && Count(Run(w, es).port.ring) < BUF_SIZE - 1
    ensures Possible(w, es') && Waits(w, Run(w, es'), bs + [b])
  {
    var v := Run(w, es);
    var more := PushByte(v, b);
    RunAppend(w, es, more);
    PushedWaits(w, v, bs, b);
    es' := es + more;
  }

  lemma {:induction false} PushAll(w: World, bs: seq<byte>) returns (es: seq<Event>)
    requires Good(w) && w.port.sigFlag && |Live(w.port.ring)| + |bs| < BUF_SIZE
    ensures Possible(w, es) && Waits(w, Run(w, es), bs)
  {
    if bs == [] {
      es := [];
      assert Live(w.port.ring) + bs == Live(w.port.ring);
    } else {
      var init, b := bs[..|bs| - 1], bs[|bs| - 1];
      InitAndLast(bs);
      es := PushAll(w, init);
      es := PushMore(w, es, init, b);
    }
  }

  // ----- every byte sequence can be sent -----

  /** The calls that send `b`, if no more than `left` pages are to be had at a time. */
  function ByteCalls(b: byte, beyond: seq<byte>, left: nat): (cs: seq<Call>) {
    [Interrupted(Signal([b])[0]), Interrupted(Signal([b])[1]), RunTasklet(beyond, left)]
  }

  function SendCalls(bs: seq<byte>, beyond: seq<byte>, left: nat): seq<Call> {
    if bs == [] then [] else ByteCalls(bs[0], beyond, left) + SendCalls(bs[1..], beyond, left)
  }

  /** One page is all that a tasklet run can need. */
  lemma OnePageIsEnough(p: Port, left: nat, grown: seq<byte>)
    requires Wf(p) && Sound(p.queue) && left > 0
    requires Allotted(|p.queue.mem|, p.queue.dataSize + Count(p.ring), left, grown)
    ensures |p.queue.mem| + |grown| >= p.queue.dataSize + Count(p.ring)
  {
    AllottedEnough(|p.queue.mem|, p.queue.dataSize + Count(p.ring), left, grown);
  }

  lemma DrainByteIsGood(w: World, b: byte, e: Event)
    requires Good(w) && w.port.scheduled && Live(w.port.ring) == [b] && Enabled(w, e) && Delivers(w.port, e)
    ensures Good(Step(w, e)) && Unread(Step(w, e).port.queue) == Unread(w.port.queue) + [b]
  {
    assert e == Tasklet(e.beyond, e.grown);
    OneByteInDomain(w.port, e);
    StepClean(w, e);
    DrainDomainExactly(w.port, e.grown);
  }

  lemma DrainByte(w: World, b: byte, e: Event)
    requires Good(w) && w.port.scheduled && Live(w.port.ring) == [b] && Enabled(w, e) && Delivers(w.port, e)
    ensures
      var w' := Step(w, e);
      && Good(w') && Live(w'.port.ring) == [] && !w'.port.scheduled && !w'.port.waitFlag
      && Unread(w'.port.queue) == Unread(w.port.queue) + [b]
      && w'.port.queue.headOffset == w.port.queue.headOffset
      && w'.port.ring.head == (w.port.ring.head + 1) % BUF_SIZE
  {
    DrainByteIsGood(w, b, e);
    DrainShape(w.port, e.beyond, e.grown);
    DrainMovesHead(w.port, e.beyond, e.grown);
  }

  lemma DrainedArrives(w: World, b: byte, e: Event)
    requires Idle(w) && Enabled(Pushed(w, b), e) && Delivers(Pushed(w, b).port, e)
    ensures Wf(Pushed(w, b).port) && Arrives(w, Step(Pushed(w, b), e), [b])
  {
    PushedGood(w, b);
    assert Live(w.port.ring) == [];
    DrainByte(Pushed(w, b), b, e);
  }

  lemma {:induction false} FeedsFirst(w: World, es: seq<Event>)
    requires Wf(w.port) && es != [] && Enabled(w, es[0])
    requires PromptStep(w.port, es[0]) && (es[0].Edge? || es[0].Tasklet? || es[0].Open?)
    requires Wf(Step(w, es[0]).port) && Feeds(Step(w, es[0]), es[1..])
    ensures Feeds(w, es) && Run(w, es) == Run(Step(w, es[0]), es[1..])
  {
  }

  /** The three events of a byte that is sent. */
  ghost predicate SendsByte(w: World, b: byte, es: seq<Event>)
    requires Idle(w)
  {
    && |es| >= 3 && es[0].Edge? && es[1].Edge?
    && Wf(Step(w, es[0]).port) && !Step(w, es[0]).port.scheduled
    && Step(Step(w, es[0]), es[1]) == Pushed(w, b) && Wf(Pushed(w, b).port)
    && Enabled(Pushed(w, b), es[2]) && Delivers(Pushed(w, b).port, es[2])
    && Wf(Step(Pushed(w, b), es[2]).port)
  }

  lemma {:induction false} ByteIsSent(w: World, b: byte, beyond: seq<byte>, left: nat, cs: seq<Call>, es: seq<Event>)
    requires Idle(w) && |beyond| == BUF_SIZE && left > 0
    requires Follows(w, ByteCalls(b, beyond, left) + cs, es)
    ensures SendsByte(w, b, es) && Follows(Step(Pushed(w, b), es[2]), cs, es[3..])
  {
    var high, v, low := BothHalves(w, b);
    var drain := [RunTasklet(beyond, left)] + cs;
    assert ByteCalls(b, beyond, left) + cs == [Interrupted(high.pins)] + ([Interrupted(low.pins)] + drain);
    FirstCall(w, Interrupted(high.pins), [Interrupted(low.pins)] + drain, es);
    FirstCall(v, Interrupted(low.pins), drain, es[1..]);
    PushedGood(w, b);
    FirstCall(Pushed(w, b), RunTasklet(beyond, left), cs, es[1..][1..]);
    OnePageIsEnough(Pushed(w, b).port, left, es[2].grown);
  }

  lemma {:induction false} FeedsByte(w: World, b: byte, es: seq<Event>)
    requires Idle(w) && SendsByte(w, b, es) && Feeds(Step(Pushed(w, b), es[2]), es[3..])
    ensures Feeds(w, es) && Run(w, es) == Run(Step(Pushed(w, b), es[2]), es[3..])
  {
    FeedsFirst(Pushed(w, b), es[2..]);
    FeedsFirst(Step(w, es[0]), es[1..]);
    FeedsFirst(w, es);
  }

  /** Whatever run follows the calls for `b` has it sent, and then goes on. */
  lemma {:induction false} SendOne(w: World, b: byte, beyond: seq<byte>, left: nat, cs: seq<Call>, es: seq<Event>)
    returns (v: World, rest: seq<Event>)
    requires Idle(w) && |beyond| == BUF_SIZE && left > 0
    requires Follows(w, ByteCalls(b, beyond, left) + cs, es)
    ensures Arrives(w, v, [b]) && Follows(v, cs, rest)
    ensures Feeds(v, rest) ==> Feeds(w, es) && Run(w, es) == Run(v, rest)
  {
    ByteIsSent(w, b, beyond, left, cs, es);
    DrainedArrives(w, b, es[2]);
    v, rest := Step(Pushed(w, b), es[2]), es[3..];
    if Feeds(v, rest) {
      FeedsByte(w, b, es);
    }
  }

  /** Whatever run follows the calls that send `bs` drains promptly, and all of `bs`
      arrives. */
  lemma {:induction false} SendIsArrival(w: World, bs: seq<byte>, beyond: seq<byte>, left: nat, es: seq<Event>)
    requires Idle(w) && |beyond| == BUF_SIZE && left > 0
    requires Follows(w, SendCalls(bs, beyond, left), es)
    ensures Feeds(w, es) && Arrives(w, Run(w, es), bs)
    decreases |bs|
  {
    if bs == [] {
      NothingArrives(w);
    } else {
      var v, rest := SendOne(w, bs[0], beyond, left, SendCalls(bs[1..], beyond, left), es);
      SendIsArrival(v, bs[1..], beyond, left, rest);
      ArrivesAll(w, v, Run(v, rest), bs);
    }
  }

  const BLANK: seq<byte> := seq(BUF_SIZE, _ => 0)
  const BLANK_PAGE: seq<byte> := seq(PAGE_SIZE, _ => 0)

  /** The device is open, `bs` has come all the way to the pages, and nothing else has
      happened. */
  ghost predicate Loaded(v: World, bs: seq<byte>) {
    && Idle(v) && v.handles == v.port.nprocs == 1 && v.pins == Signal(bs)
    && v.consumed == v.delivered == [] && v.accepted == bs
    && Unread(v.port.queue) == bs && v.port.queue.headOffset == 0
    && !v.port.nullFlag && v.port.nullLocation == -1 && (bs != [] ==> !v.port.waitFlag)
    && v.port.ring.head == |bs| % BUF_SIZE
  }

  lemma OpenedIsLoaded(w: World)
    requires Boot(w)
    ensures Enabled(w, Open(true)) && Wf(Step(w, Open(true)).port) && Loaded(Step(w, Open(true)), [])
  {
    BootGood(w);
    StepWf(w, Open(true));
    assert Signal([]) == [];
  }

  lemma LoadedMore(v: World, u: World, bs: seq<byte>)
    requires Loaded(v, []) && Arrives(v, u, bs)
    ensures Loaded(u, bs)
  {
    assert Live(u.port.ring) == [];
    assert Signal([]) + Signal(bs) == Signal(bs);
  }

  /** The calls that open the device and send `bs`. */
  function LoadCalls(bs: seq<byte>, beyond: seq<byte>, left: nat): seq<Call> {
    [CallOpen(true)] + SendCalls(bs, beyond, left)
  }

  /** Every byte sequence can be sent to a freshly loaded module: whatever run follows
      these calls drains promptly, and a reader then finds `bs`. */
  lemma LoadIsLoaded(w: World, bs: seq<byte>, beyond: seq<byte>, left: nat, es: seq<Event>)
    requires Boot(w) && |beyond| == BUF_SIZE && left > 0
    requires Follows(w, LoadCalls(bs, beyond, left), es)
    ensures Feeds(w, es) && Prompt(w, es) && ReadsClean(w, es)
    ensures Loaded(Run(w, es), bs)
  {
    OpenedIsLoaded(w);
    var v := Step(w, Open(true));
    FirstCall(w, CallOpen(true), SendCalls(bs, beyond, left), es);
    SendIsArrival(v, bs, beyond, left, es[1..]);
    LoadedMore(v, Run(v, es[1..]), bs);
    FeedsPromptly(w, es);
  }

  lemma SendFromBoot(w: World, bs: seq<byte>) returns (es: seq<Event>)
    requires Boot(w)
    ensures Feeds(w, es) && Prompt(w, es) && ReadsClean(w, es)
    ensures Loaded(Run(w, es), bs)
  {
    es := SomeRun(w, LoadCalls(bs, BLANK, 1));
    LoadIsLoaded(w, bs, BLANK, 1, es);
  }

  /** Where the pages then stand. */
  lemma LoadedPages(v: World, bs: seq<byte>)
    requires Loaded(v, bs) && bs != []
    ensures
      var q := v.port.queue;
      && q.dataSize == |bs| && q.tailIndex == |bs| / PAGE_SIZE && q.tailOffset == |bs| % PAGE_SIZE
      && |bs| <= |q.mem| < |bs| + PAGE_SIZE && q.mem[..|bs|] == bs
      && !LooksEmpty(q)
  {
    EmptinessTestExact(v.port.queue);
  }

  // ----- reads that go wrong -----

  lemma ReadReady(v: World, bs: seq<byte>, count: nat)
    requires Loaded(v, bs) && bs != []
    ensures Step(v, Read(count)) == StepDeliver(v, count)
    ensures ReadDomain(v.port.queue, count) ==> Good(Step(v, Read(count)))
  {
    LoadedPages(v, bs);
    ReadGood(v, count);
  }

  lemma TwoPagesLoaded(v: World)
    requires Loaded(v, Ones(2 * PAGE_SIZE))
    ensures v.port.queue == Queue(Ones(2 * PAGE_SIZE), 2 * PAGE_SIZE, 0, 2, 0, 0)
  {
    var bs, mem := Ones(2 * PAGE_SIZE), v.port.queue.mem;
    LoadedPages(v, bs);
    assert |mem| == |bs| && mem == mem[..|bs|];
  }

  /** A reader asks for the first of two pages, and the second is gone. */
  lemma BoundaryReadReached(w: World) returns (es: seq<Event>)
    requires Boot(w)
    ensures Feeds(w, es) && Enabled(Run(w, es), Read(PAGE_SIZE))
    ensures
      var v := Run(w, es);
      var v' := Step(v, Read(PAGE_SIZE));
      && v.delivered == [] && Unread(v.port.queue) == v.accepted == Ones(2 * PAGE_SIZE)
      && v'.delivered == Ones(PAGE_SIZE) && v'.port.queue == FRESH_QUEUE && Live(v'.port.ring) == []
  {
    es := SendFromBoot(w, Ones(2 * PAGE_SIZE));
    var v := Run(w, es);
    TwoPagesLoaded(v);
    BoundaryReadLosesAPage(v.port);
    ReadReady(v, Ones(2 * PAGE_SIZE), PAGE_SIZE);
    assert [] + Ones(PAGE_SIZE) == Ones(PAGE_SIZE);
  }

  /** The first separator of a queue that is read from its start. */
  lemma ReadToNul(p: Port, k: nat, rest: seq<byte>, count: nat)
    requires Wf(p) && Sound(p.queue) && !p.nullFlag && p.queue.headOffset == 0
    requires Unread(p.queue) == Ones(k) + [0] + rest && |Unread(p.queue)| <= count
    ensures StopsAt(p.queue, count) == k && k < |Window(p.queue, count)|
    ensures Deliver(p, count).1 == Ones(k)
    ensures
      var p' := Deliver(p, count).0;
      p'.nullFlag && p'.nullLocation == p'.queue.headOffset == k % PAGE_SIZE
  {
    var u, w := Unread(p.queue), Window(p.queue, count);
    WindowIsPrefix(p.queue, count);
    assert w == u;
    assert u[..k] == Ones(k) && u[k] == 0;
    UntilNulUnique(u, k);
  }

  /** What a read up to a separator at the start of the second page leaves behind. */
  lemma NulAtPageStartLoses(p: Port)
    requires Wf(p) && Sound(p.queue) && !p.nullFlag && p.queue.headOffset == 0 && p.queue.dataSize == PAGE_SIZE + 2
    requires p.queue.tailIndex == 1 && p.queue.tailOffset == 2
    requires Unread(p.queue) == Ones(PAGE_SIZE) + [0] + [1]
    ensures !ReadDomain(p.queue, PAGE_SIZE + 2)
    ensures
      var (p', out) := Deliver(p, PAGE_SIZE + 2);
      out == Ones(PAGE_SIZE) && p'.queue == Queue([], 0xffff_f002, 0, -1, 0, 2) && p'.ring == p.ring
  {
    ReadToNul(p, PAGE_SIZE, [1], PAGE_SIZE + 2);
    assert |p.queue.mem| == 2 * PAGE_SIZE;
    assert Frees(p.queue, PAGE_SIZE + 2) == 2;
  }

  /** A separator starts the second page: a reader that comes to it loses it and the
      byte behind it, and size and tail index go below zero. */
  lemma NulAtPageStartReached(w: World) returns (es: seq<Event>)
    requires Boot(w)
    ensures Feeds(w, es) && Enabled(Run(w, es), Read(PAGE_SIZE + 2))
    ensures
      var v := Run(w, es);
      var v' := Step(v, Read(PAGE_SIZE + 2));
      && v.delivered == [] && Unread(v.port.queue) == v.accepted == Ones(PAGE_SIZE) + [0] + [1]
      && v'.delivered == Ones(PAGE_SIZE) && Live(v'.port.ring) == []
      && v'.port.queue == Queue([], 0xffff_f002, 0, -1, 0, 2)
  {
    var bs := Ones(PAGE_SIZE) + [0] + [1];
    es := SendFromBoot(w, bs);
    var v := Run(w, es);
    LoadedPages(v, bs);
    NulAtPageStartLoses(v.port);
    ReadReady(v, bs, PAGE_SIZE + 2);
    assert [] + Ones(PAGE_SIZE) == Ones(PAGE_SIZE);
  }

  lemma ReadStep(w: World, es: seq<Event>, count: nat)
    requires Wf(w.port) && Possible(w, es)
    ensures Possible(w, es + [Read(count)]) && Run(w, es + [Read(count)]) == Step(Run(w, es), Read(count))
  {
    RunOne(Run(w, es), Read(count));
    RunAppend(w, es, [Read(count)]);
  }

  /** A session that ends at the last byte of the first page. */
  lemma EndAtPageEnd(p: Port, rest: seq<byte>, count: nat)
    requires Wf(p) && Sound(p.queue) && !p.nullFlag && p.queue.headOffset == 0
    requires Unread(p.queue) == Ones(PAGE_SIZE - 1) + [0] + rest && |Unread(p.queue)| <= count
    ensures ReadDomain(p.queue, count)
    ensures
      var (p', out) := Deliver(p, count);
      && out == Ones(PAGE_SIZE - 1) && Unread(p'.queue) == [0] + rest
      && p'.nullLocation == p'.queue.headOffset == PAGE_SIZE - 1
  {
    ReadToNul(p, PAGE_SIZE - 1, rest, count);
    DeliverInDomain(p, count);
    assert (Ones(PAGE_SIZE - 1) + [0] + rest)[PAGE_SIZE - 1..] == [0] + rest;
  }

  lemma ReadToPageEnd(v: World, bs: seq<byte>)
    requires Loaded(v, bs) && bs == Ones(PAGE_SIZE - 1) + [0] + [1]
    ensures
      var v' := Step(v, Read(PAGE_SIZE + 1));
      && Good(v') && v'.handles == 1 && v'.delivered == Ones(PAGE_SIZE - 1) && Unread(v'.port.queue) == [0] + [1]
      && v'.port.nullLocation == v'.port.queue.headOffset == PAGE_SIZE - 1
  {
    EndAtPageEnd(v.port, [1], PAGE_SIZE + 1);
    ReadReady(v, bs, PAGE_SIZE + 1);
  }

  lemma AfterPageEnd(v: World) returns (u: World)
    requires Good(v) && v.handles == 1
    ensures Enabled(v, Release) && u == Step(v, Release) && Good(u)
    ensures u.delivered == v.delivered && u.port == v.port.(nullFlag := false, nprocs := v.port.nprocs - 1)
  {
    u := Step(v, Release);
    StepClean(v, Release);
  }

  /** A separator ends the first page: once the next session has begun to skip it, no
      byte is delivered any more. */
  lemma NulAtPageEndReached(w: World) returns (es: seq<Event>)
    requires Boot(w)
    ensures Possible(w, es)
    ensures
      var v := Run(w, es);
      && v.delivered == Ones(PAGE_SIZE - 1) && Unread(v.port.queue) == [0] + [1] && !v.port.nullFlag
      && forall count, es' | Possible(v, [Read(count)] + es') :: Run(v, [Read(count)] + es').delivered == v.delivered
  {
    var bs := Ones(PAGE_SIZE - 1) + [0] + [1];
    es := SendFromBoot(w, bs);
    ReadToPageEnd(Run(w, es), bs);
    ReadStep(w, es, PAGE_SIZE + 1);
    es := es + [Read(PAGE_SIZE + 1)];
    var u := AfterPageEnd(Run(w, es));
    RunOne(Run(w, es), Release);
    RunAppend(w, es, [Release]);
    es := es + [Release];
    forall count, es' | Possible(u, [Read(count)] + es')
      ensures Run(u, [Read(count)] + es').delivered == u.delivered
    {
      SkipAtPageEndIsFatal(u, count, es');
    }
  }

  // ----- tasklet runs that go wrong -----

  /** The first bytes behind the ring are those of its own two indices, least
      significant first. */
  ghost predicate IndicesBehind(r: Ring, beyond: seq<byte>)
    requires RingOk(r)
  {
    && |beyond| == BUF_SIZE
    && beyond[..8] == [(r.head % 256) as byte, (r.head / 256) as byte, 0, 0,
                       (r.tail % 256) as byte, (r.tail / 256) as byte, 0, 0]
  }

  lemma LiveAt(r: Ring, i: nat)
    requires RingOk(r) && i < Count(r)
    ensures Live(r)[i] == r.buf[(r.head + i) % BUF_SIZE]
  {
  }

  lemma LowByte(head: nat)
    requires head == 1023
    ensures (head % 256) as byte == 0xff
  {
  }

  lemma FirstOf(s: seq<byte>, t: seq<byte>)
    requires 0 < |t| <= |s| && s[..|t|] == t
    ensures s[0] == t[0]
  {
    assert s[..|t|][0] == s[0];
  }

  lemma FirstBehind(r: Ring, beyond: seq<byte>)
    requires RingOk(r) && r.head == 1023 && IndicesBehind(r, beyond)
    ensures beyond[0] == 0xff
  {
    FirstOf(beyond, beyond[..8]);
    LowByte(r.head);
  }

  /** Instead of the byte in slot 0, a run that wraps hands on the low byte of the head. */
  lemma WrappedCopy(r: Ring, a: byte, b: byte, beyond: seq<byte>)
    requires RingOk(r) && r.head == 1023 && Live(r) == [a] + [b] && IndicesBehind(r, beyond)
    ensures Copied(r, 1023, beyond, 2) == [a] + [0xff]
  {
    var copied := Copied(r, 1023, beyond, 2);
    assert copied == (r.buf + beyond)[1023..1025];
    LiveAt(r, 0);
    assert copied[0] == r.buf[1023];
    FirstBehind(r, beyond);
  }

  lemma WrappedRun(p: Port, a: byte, b: byte, beyond: seq<byte>)
    requires Wf(p) && Sound(p.queue) && p.scheduled
    requires p.ring.head == p.queue.dataSize == p.queue.tailOffset == 1023 && p.queue.tailIndex == 0
    requires Live(p.ring) == [a] + [b] && IndicesBehind(p.ring, beyond)
    ensures Runnable(p, beyond, [])
    ensures Unread(Drain(p, beyond, []).queue) == Unread(p.queue) + [a] + [0xff]
  {
    assert Count(p.ring) == 2;
    DrainAppends(p, beyond, []);
    WrappedCopy(p.ring, a, b, beyond);
  }

  /** Sends `bs` promptly, and then `t` with no tasklet run behind it. */
  lemma SendThenPush(w: World, bs: seq<byte>, t: seq<byte>) returns (es: seq<Event>)
    requires Boot(w) && bs != [] && |t| < BUF_SIZE
    ensures Possible(w, es)
    ensures exists u :: Loaded(u, bs) && Waits(u, Run(w, es), t)
  {
    es := SendFromBoot(w, bs);
    var u := Run(w, es);
    var more := PushAll(u, t);
    RunAppend(w, es, more);
    es := es + more;
    assert Loaded(u, bs) && Waits(u, Run(w, es), t);
  }

  /** The ring has gone once round, and two bytes wait at its end: instead of the second
      a tasklet run hands on the low byte of the ring's head. */
  lemma WrapReached(w: World, a: byte, b: byte) returns (es: seq<Event>)
    requires Boot(w)
    ensures Possible(w, es)
    ensures
      var v := Run(w, es);
      && Good(v) && v.port.ring.head == 1023
      && Unread(v.port.queue) == Ones(1023) && Live(v.port.ring) == [a] + [b]
      && forall beyond | IndicesBehind(v.port.ring, beyond) ::
           && Enabled(v, Tasklet(beyond, []))
           && Unread(Step(v, Tasklet(beyond, [])).port.queue) == Ones(1023) + [a] + [0xff]
  {
    es := SendThenPush(w, Ones(1023), [a] + [b]);
    var v := Run(w, es);
    var u :| Loaded(u, Ones(1023)) && Waits(u, v, [a] + [b]);
    LoadedPages(u, Ones(1023));
    assert Live(u.port.ring) == [];
    forall beyond | IndicesBehind(v.port.ring, beyond)
      ensures Enabled(v, Tasklet(beyond, []))
      ensures Unread(Step(v, Tasklet(beyond, [])).port.queue) == Ones(1023) + [a] + [0xff]
    {
      WrappedRun(v.port, a, b, beyond);
    }
  }

  /** Of a first page that is one byte short of full, one byte has been read. */
  ghost predicate FirstByteGone(p: Port) {
    && Sound(p.queue) && p.sigFlag && Count(p.ring) == 0 && p.ring.head == 1023
    && p.queue.dataSize == p.queue.tailOffset == PAGE_SIZE - 1
    && p.queue.headOffset == 1 && p.nullLocation == -1
    && Unread(p.queue) == Ones(PAGE_SIZE - 2)
  }

  lemma DeliverFirstByte(p: Port)
    requires Wf(p) && Sound(p.queue) && !p.nullFlag && p.nullLocation == -1 && p.sigFlag
    requires Count(p.ring) == 0 && p.ring.head == 1023
    requires p.queue.dataSize == p.queue.tailOffset == PAGE_SIZE - 1 && p.queue.headOffset == 0
    requires Unread(p.queue) == Ones(PAGE_SIZE - 1)
    ensures ReadDomain(p.queue, 1) && FirstByteGone(Deliver(p, 1).0)
  {
    WindowIsPrefix(p.queue, 1);
    UntilNulUnique(Window(p.queue, 1), 1);
    assert StopsAt(p.queue, 1) == 1;
    DeliverInDomain(p, 1);
    assert Unread(p.queue)[1..] == Ones(PAGE_SIZE - 2);
  }

  lemma ReadFirstByte(u: World)
    requires Loaded(u, Ones(PAGE_SIZE - 1))
    ensures Good(Step(u, Read(1))) && FirstByteGone(Step(u, Read(1)).port)
  {
    LoadedPages(u, Ones(PAGE_SIZE - 1));
    DeliverFirstByte(u.port);
    ReadReady(u, Ones(PAGE_SIZE - 1), 1);
  }

  lemma FirstByteRead(w: World) returns (es: seq<Event>)
    requires Boot(w)
    ensures Possible(w, es)
    ensures Good(Run(w, es)) && FirstByteGone(Run(w, es).port)
  {
    es := SendFromBoot(w, Ones(PAGE_SIZE - 1));
    ReadFirstByte(Run(w, es));
    ReadStep(w, es, 1);
    es := es + [Read(1)];
  }

  lemma StraddlingRun(p: Port, beyond: seq<byte>)
    requires Wf(p) && Sound(p.queue) && p.scheduled && p.nullLocation == -1 && |beyond| == BUF_SIZE
    requires p.queue.dataSize == p.queue.tailOffset == PAGE_SIZE - 1 && p.queue.headOffset == 1
    requires p.ring.head == 1023 && Live(p.ring) == Ones(2)
    requires Unread(p.queue) == Ones(PAGE_SIZE - 2)
    ensures Runnable(p, beyond, BLANK_PAGE) && NoWrap(p)
    ensures
      var p' := Drain(p, beyond, BLANK_PAGE);
      && Unread(p'.queue) == Ones(PAGE_SIZE) && EnterRead(p').1 == Asleep
      && p'.queue == Queue(p'.queue.mem, PAGE_SIZE + 1, 0, 0, 1, 1)
  {
    assert Count(p.ring) == 2;
    StraddleHidesAPage(p, beyond, BLANK_PAGE);
    DrainAppends(p, beyond, BLANK_PAGE);
    CopiedInOrder(p, beyond);
  }

  /** A tasklet run over the end of the first page, of which a reader has had one byte:
      a whole page is there to be read, and the reader goes to sleep. */
  lemma StraddleReached(w: World, beyond: seq<byte>) returns (es: seq<Event>)
    requires Boot(w) && |beyond| == BUF_SIZE
    ensures Possible(w, es)
    ensures
      var v := Run(w, es);
      && Enabled(v, Tasklet(beyond, BLANK_PAGE)) && NoWrap(v.port)
      && var v' := Step(v, Tasklet(beyond, BLANK_PAGE));
      && Unread(v'.port.queue) == Ones(PAGE_SIZE) && EnterRead(v'.port).1 == Asleep
      && v'.port.queue == Queue(v'.port.queue.mem, PAGE_SIZE + 1, 0, 0, 1, 1)
  {
    es := FirstByteRead(w);
    var v := Run(w, es);
    assert Live(v.port.ring) == [];
    var more := PushAll(v, Ones(2));
    RunAppend(w, es, more);
    es := es + more;
    StraddlingRun(Run(w, es).port, beyond);
  }

  // ----- a page that is refused -----

  /** The ring fills up before the first tasklet run, which is refused a page: no byte is
      accepted any more. */
  lemma RefusalReached(w: World) returns (es: seq<Event>)
    requires Boot(w)
    ensures Possible(w, es)
    ensures
      var v := Run(w, es);
      && Good(v) && Live(v.port.ring) == v.accepted == Ones(BUF_SIZE - 1)
      && forall es' | Possible(v, es') :: Run(v, es').accepted == v.accepted
  {
    BootGood(w);
    assert Live(w.port.ring) == [];
    es := PushAll(w, Ones(BUF_SIZE - 1));
    var u, e := Run(w, es), Tasklet(BLANK, []);
    assert Live(u.port.ring) == Ones(BUF_SIZE - 1);
    StepClean(u, e);
    DrainRefused(u.port, BLANK, []);
    RunOne(u, e);
    RunAppend(w, es, [e]);
    es := es + [e];
    var v := Run(w, es);
    forall es' | Possible(v, es')
      ensures Run(v, es').accepted == v.accepted
    {
      FullRingIsStuck(v, es');
    }
  }
}
