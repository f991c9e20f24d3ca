/** Whole runs of the asgn2 pipeline: interrupts, tasklet runs, opens, reads, readers
    that wake up, and closes, interleaved in any way. */
module PortRuns {
  import opened Bytes
  import opened Pages
  import opened Gpio
  import opened PortSpec
  import opened PortQueue

  /** `beyond` is what a tasklet's memcpy finds after the ring, `grown` the content of
      the pages the allocator hands to that run. */
  datatype Event =
    | Edge(pins: bv32)
    | Tasklet(beyond: seq<byte>, grown: seq<byte>)
    | Read(count: nat)
    | Wake(count: nat)
    | Open(readOnly: bool)
    | Release

  /** The driver, and what an observer of the run has seen: the pin states, the bytes
      assembled from them, those that found room in the ring, those that readers have
      moved past (skipped separators included), and those that readers were given; what
      the calls that have returned were answered; and how many handles are open. */
  datatype World = World(port: Port, pins: seq<bv32>,
                         decoded: seq<byte>, accepted: seq<byte>, consumed: seq<byte>, delivered: seq<byte>,
                         answers: seq<int>, handles: nat)

  ghost predicate Boot(w: World) {
    && Fresh(w.port) && w.pins == [] && w.decoded == w.accepted == w.consumed == w.delivered == []
    && w.answers == [] && w.handles == 0
  }

  /** What a tasklet run may meet: it is scheduled, and gets no more pages than it asks
      for. */
  ghost predicate Runnable(p: Port, beyond: seq<byte>, grown: seq<byte>) {
    && p.scheduled
    && |beyond| == BUF_SIZE
    && Growth(|p.queue.mem|, p.queue.dataSize + Count(p.ring), grown)
  }

  /** Events that can happen: a sleeping reader goes on once the wait flag is clear, an
      open once the process count is 0, and only an open handle is closed. */
  ghost predicate Enabled(w: World, e: Event) {
    match e
    case Edge(_) => true
    case Tasklet(beyond, grown) => Runnable(w.port, beyond, grown)
    case Read(_) => true
    case Wake(_) => !w.port.waitFlag
    case Open(_) => w.port.nprocs == 0
    case Release => w.handles > 0
  }

  ghost function StepEdge(w: World, pins: bv32): World
    requires Wf(w.port)
  {
    var port := Interrupt(w.port, pins);
    var w' := w.(port := port, pins := w.pins + [pins]);
    if w.port.sigFlag then w'
    else
      w'.(decoded := w.decoded + [port.halfByte],
          accepted := if CircSpace(w.port.ring.tail, w.port.ring.head) > 0 then w.accepted + [port.halfByte]
                      else w.accepted)
  }

  ghost function StepDeliver(w: World, count: nat): World
    requires Wf(w.port)
  {
    var (port, out) := Deliver(w.port, count);
    w.(port := port, consumed := w.consumed + out, delivered := w.delivered + out, answers := w.answers + [|out|])
  }

  /** A read that has to sleep is not answered until it goes on. */
  ghost function StepRead(w: World, count: nat): World
    requires Wf(w.port)
  {
    var (port, entry) := EnterRead(w.port);
    match entry
    case Skipped => w.(port := port, consumed := w.consumed + [0], answers := w.answers + [0])
    case Asleep => w.(port := port)
    case Ready => StepDeliver(w.(port := port), count)
  }

  ghost function Step(w: World, e: Event): World
    requires Wf(w.port) && Enabled(w, e)
  {
    match e
    case Edge(pins) => StepEdge(w, pins)
    case Tasklet(beyond, grown) => w.(port := Drain(w.port, beyond, grown))
    case Read(count) => StepRead(w, count)
    case Wake(count) => StepDeliver(w, count)
    case Open(readOnly) =>
      var (port, r) := DoOpen(w.port, readOnly);
      w.(port := port, answers := w.answers + [r], handles := if r == 0 then w.handles + 1 else w.handles)
    case Release => w.(port := EndSession(w.port), answers := w.answers + [0], handles := w.handles - 1)
  }

  // ----- every step is safe -----

  lemma DeliverWf(p: Port, count: nat)
    requires Wf(p)
    ensures Wf(Deliver(p, count).0)
  {
    FreesFits(p.queue, count);
    WholePagesLeft(|p.queue.mem|, Frees(p.queue, count));
  }

  lemma InterruptWf(p: Port, pins: bv32)
    requires Wf(p)
    ensures Wf(Interrupt(p, pins))
  {
    if !p.sigFlag {
      PutIsBoundedEnqueue(p.ring, p.halfByte | HalfByte(pins));
    }
  }

  lemma DrainWf(p: Port, beyond: seq<byte>, grown: seq<byte>)
    requires Wf(p) && Runnable(p, beyond, grown)
    ensures Wf(Drain(p, beyond, grown))
  {
    assert |p.queue.mem + grown| % PAGE_SIZE == 0;
  }

  lemma StepWf(w: World, e: Event)
    requires Wf(w.port) && Enabled(w, e)
    ensures Wf(Step(w, e).port)
  {
    match e {
      case Edge(pins) => InterruptWf(w.port, pins);
      case Tasklet(beyond, grown) => DrainWf(w.port, beyond, grown);
      case Read(count) =>
        if EnterRead(w.port).1.Ready? {
          DeliverWf(EnterRead(w.port).0, count);
        }
      case Wake(count) => DeliverWf(w.port, count);
      case Open(_) =>
      case Release =>
    }
  }

  /** The events `es` can happen one after the other from `w`. */
  ghost predicate Possible(w: World, es: seq<Event>)
    requires Wf(w.port)
    decreases |es|
  {
    es == [] || (Enabled(w, es[0]) && (StepWf(w, es[0]); Possible(Step(w, es[0]), es[1..])))
  }

  ghost function Run(w: World, es: seq<Event>): (w': World)
    requires Wf(w.port) && Possible(w, es)
    ensures Wf(w'.port)
    decreases |es|
  {
    if es == [] then w
    else
      StepWf(w, es[0]);
      Run(Step(w, es[0]), es[1..])
  }

  lemma RunOne(w: World, e: Event)
    requires Wf(w.port) && Enabled(w, e)
    ensures Possible(w, [e]) && Run(w, [e]) == Step(w, e)
  {
    StepWf(w, e);
    assert [e][1..] == [];
  }

  /** Runs can be joined. */
  lemma {:induction false} RunAppend(w: World, es: seq<Event>, es': seq<Event>)
    requires Wf(w.port) && Possible(w, es) && Possible(Run(w, es), es')
    ensures Possible(w, es + es') && Run(w, es + es') == Run(Run(w, es), es')
    decreases |es|
  {
    if es == [] {
      assert es + es' == es';
    } else {
      assert (es + es')[1..] == es[1..] + es';
      StepWf(w, es[0]);
      RunAppend(Step(w, es[0]), es[1..], es');
    }
  }

  // ----- decoding -----

  /** The assembled bytes are those of the pin states, and a lone high half waits. */
  ghost predicate Decodes(w: World) {
    && w.decoded == Assemble(w.pins)
    && (w.port.sigFlag <==> |w.pins| % 2 == 0)
    && (!w.port.sigFlag ==> w.port.halfByte == HalfByte(w.pins[|w.pins| - 1]) << 4)
  }

  lemma EdgeDecodes(w: World, pins: bv32)
    requires Wf(w.port) && Decodes(w)
    ensures Decodes(StepEdge(w, pins))
  {
    if w.port.sigFlag {
      OddPrefix(w.pins, pins);
    } else {
      var init, high := w.pins[..|w.pins| - 1], w.pins[|w.pins| - 1];
      assert w.pins == init + [high];
      EvenPrefix(init, high, pins);
      OddPrefix(init, high);
    }
  }

  /** Nothing but an interrupt touches the handler's own state. */
  lemma HandlerAlone(w: World, e: Event)
    requires Wf(w.port) && Enabled(w, e) && !e.Edge?
    ensures
      var w' := Step(w, e);
      && w'.pins == w.pins && w'.decoded == w.decoded
      && w'.port.sigFlag == w.port.sigFlag && w'.port.halfByte == w.port.halfByte
  {
  }

  lemma StepDecodes(w: World, e: Event)
    requires Wf(w.port) && Enabled(w, e) && Decodes(w)
    ensures Decodes(Step(w, e))
  {
    if e.Edge? {
      EdgeDecodes(w, e.pins);
    } else {
      HandlerAlone(w, e);
    }
  }

  /** In every run, whatever else happens in it, the handler has assembled exactly the
      bytes of the pin states it was interrupted for. */
  lemma {:induction false} RunDecodes(w: World, es: seq<Event>)
    requires Wf(w.port) && Possible(w, es) && Decodes(w)
    ensures Decodes(Run(w, es))
    decreases |es|
  {
    if es != [] {
      StepDecodes(w, es[0]);
      StepWf(w, es[0]);
      RunDecodes(Step(w, es[0]), es[1..]);
    }
  }

  // ----- one FIFO -----

  /** The pipeline is in order, and nothing that was accepted is lost, repeated or
      out of place: what readers have moved past, what they have not read, and what is
      in the ring are the accepted bytes. Readers were given all of the first part
      but the separators, and none of them sleeps while there is something to read. */
  ghost predicate Good(w: World) {
    && Wf(w.port)
    && Sound(w.port.queue)
    && PendingOk(w.port)
    && (w.port.waitFlag ==> Unread(w.port.queue) == [])
    && w.accepted == w.consumed + Unread(w.port.queue) + Live(w.port.ring)
    && w.delivered == NonNul(w.consumed)
  }

  lemma BootGood(w: World)
    requires Boot(w)
    ensures Good(w) && Decodes(w)
  {
  }

  ghost predicate ReadInDomain(p: Port, count: nat) {
    p.nullFlag || ReadDomain(p.queue, count)
  }

  ghost predicate InDomain(p: Port, e: Event)
    requires RingOk(p.ring)
  {
    match e
    case Edge(_) => true
    case Tasklet(_, grown) =>
      |p.queue.mem| + |grown| >= p.queue.dataSize + Count(p.ring) ==> DrainDomain(p)
    case Read(count) =>
      (match EnterRead(p).1
       case Skipped => SkipDomain(p.queue)
       case Asleep => true
       case Ready => ReadInDomain(p, count))
    case Wake(count) => ReadInDomain(p, count)
    case Open(_) => true
    case Release => true
  }

  lemma EdgeGood(w: World, pins: bv32)
    requires Good(w)
    ensures Good(StepEdge(w, pins))
  {
    InterruptWf(w.port, pins);
    if !w.port.sigFlag {
      PutIsBoundedEnqueue(w.port.ring, StepEdge(w, pins).port.halfByte);
    }
  }

  lemma MovesPast(consumed: seq<byte>, out: seq<byte>, rest: seq<byte>, live: seq<byte>)
    ensures consumed + (out + rest) + live == consumed + out + rest + live
  {
    assert consumed + (out + rest) == consumed + out + rest;
  }

  /** Readers are given `out` from the front of what is unread. */
  lemma AdvanceGood(w: World, port: Port, out: seq<byte>, answers: seq<int>)
    requires Good(w)
    requires Wf(port) && Sound(port.queue) && PendingOk(port) && !port.waitFlag && port.ring == w.port.ring
    requires NulFree(out) && Unread(w.port.queue) == out + Unread(port.queue)
    ensures Good(w.(port := port, consumed := w.consumed + out, delivered := w.delivered + out, answers := answers))
  {
    NonNulOfNulFree(w.consumed, out);
    MovesPast(w.consumed, out, Unread(port.queue), Live(port.ring));
  }

  /** While a separator is next and remembered, no read gets past it. */
  lemma PendingStopsRead(p: Port, count: nat)
    requires Wf(p) && Sound(p.queue) && PendingOk(p) && p.nullLocation != -1 && !p.nullFlag
    ensures Deliver(p, count).1 == []
    ensures ReadDomain(p.queue, count) ==> Deliver(p, count).0.queue.headOffset == p.queue.headOffset
  {
    WindowIsPrefix(p.queue, count);
    assert UntilNul(Window(p.queue, count)) == 0;
  }

  /** Inside the domain a separator is remembered exactly as long as it is next. */
  lemma DeliverPending(p: Port, count: nat)
    requires Wf(p) && Sound(p.queue) && PendingOk(p) && !p.nullFlag && ReadDomain(p.queue, count)
    ensures PendingOk(Deliver(p, count).0)
  {
    var (port, out) := Deliver(p, count);
    DeliversUntilNul(p, count);
    DeliverInDomain(p, count);
    if p.nullLocation != -1 {
      PendingStopsRead(p, count);
    }
  }

  lemma DeliverInDomainGood(w: World, count: nat)
    requires Good(w) && !w.port.waitFlag && !w.port.nullFlag && ReadDomain(w.port.queue, count)
    ensures Good(StepDeliver(w, count))
  {
    var (port, out) := Deliver(w.port, count);
    DeliverWf(w.port, count);
    DeliverPending(w.port, count);
    DeliverInDomain(w.port, count);
    DeliversUntilNul(w.port, count);
    AdvanceGood(w, port, out, w.answers + [|out|]);
  }

  lemma DeliverOutsideDomainLoses(w: World, count: nat)
    requires Good(w) && !w.port.nullFlag && !ReadDomain(w.port.queue, count)
    ensures !Good(StepDeliver(w, count))
  {
    DeliverOutsideDomain(w.port, count);
    var (port, out) := Deliver(w.port, count);
    assert |w.accepted| > |w.consumed + out + Unread(port.queue) + Live(port.ring)|;
  }

  lemma DeliverGood(w: World, count: nat)
    requires Good(w) && !w.port.waitFlag
    ensures Good(StepDeliver(w, count)) <==> ReadInDomain(w.port, count)
  {
    if w.port.nullFlag {
      assert w.consumed + [] == w.consumed && w.delivered + [] == w.delivered;
    } else if ReadDomain(w.port.queue, count) {
      DeliverInDomainGood(w, count);
    } else {
      DeliverOutsideDomainLoses(w, count);
    }
  }

  lemma FirstMoved(s: seq<byte>, t: seq<byte>, u: seq<byte>)
    requires t != []
    ensures s + t + u == s + [t[0]] + t[1..] + u
  {
    assert [t[0]] + t[1..] == t;
  }

  lemma SkipGood(w: World, count: nat)
    requires Good(w) && w.port.nullLocation == w.port.queue.headOffset
    ensures Good(StepRead(w, count)) <==> SkipDomain(w.port.queue)
  {
    SkipExactly(w.port);
    NonNulOfNul(w.consumed);
    FirstMoved(w.consumed, Unread(w.port.queue), Live(w.port.ring));
  }

  lemma ReadGood(w: World, count: nat)
    requires Good(w)
    ensures Good(StepRead(w, count)) <==> InDomain(w.port, Read(count))
  {
    var (port, entry) := EnterRead(w.port);
    EmptinessTestExact(w.port.queue);
    match entry {
      case Skipped => SkipGood(w, count);
      case Asleep =>
      case Ready => DeliverGood(w.(port := port), count);
    }
  }

  lemma SameRest(s: seq<byte>, t: seq<byte>, u: seq<byte>)
    ensures s + t == s + u ==> t == u
  {
    assert (s + t)[|s|..] == t && (s + u)[|s|..] == u;
  }

  /** The ring has been moved to the page queue, or something else has happened to it. */
  lemma MovedGood(w: World, port: Port)
    requires Good(w) && RingOk(port.ring) && Live(port.ring) == []
    ensures Good(w.(port := port)) ==>
      Sound(port.queue) && Unread(port.queue) == Unread(w.port.queue) + Live(w.port.ring)
    ensures Wf(port) && Sound(port.queue) && PendingOk(port) && !port.waitFlag
      && Unread(port.queue) == Unread(w.port.queue) + Live(w.port.ring)
      ==> Good(w.(port := port))
  {
    var rest, rest' := Unread(w.port.queue) + Live(w.port.ring), Unread(port.queue);
    assert w.accepted == w.consumed + rest;
    assert w.consumed + rest' + [] == w.consumed + rest';
    SameRest(w.consumed, rest', rest);
  }

  lemma TaskletGood(w: World, beyond: seq<byte>, grown: seq<byte>)
    requires Good(w) && Runnable(w.port, beyond, grown) && InDomain(w.port, Tasklet(beyond, grown))
    ensures Good(Step(w, Tasklet(beyond, grown)))
  {
    var p := w.port;
    DrainWf(p, beyond, grown);
    if |p.queue.mem| + |grown| >= p.queue.dataSize + Count(p.ring) {
      DrainDomainExactly(p, grown);
      DrainShape(p, beyond, grown);
      var q' := Drain(p, beyond, grown).queue;
      assert Sound(q') && Unread(q') == Unread(p.queue) + Live(p.ring);
      MovedGood(w, Drain(p, beyond, grown));
    } else {
      DrainRefused(p, beyond, grown);
    }
  }

  lemma TaskletOutsideDomain(w: World, grown: seq<byte>) returns (beyond: seq<byte>)
    requires Good(w)
    requires w.port.scheduled && Growth(|w.port.queue.mem|, w.port.queue.dataSize + Count(w.port.ring), grown)
    requires !InDomain(w.port, Tasklet([], grown))
    ensures |beyond| == BUF_SIZE
    ensures !Good(w.(port := Drain(w.port, beyond, grown)))
  {
    var p := w.port;
    DrainDomainExactly(p, grown);
    beyond :| |beyond| == BUF_SIZE &&
      !(&& Sound(Drain(p, beyond, grown).queue)
        && Unread(Drain(p, beyond, grown).queue) == Unread(p.queue) + Live(p.ring));
    DrainShape(p, beyond, grown);
    MovedGood(w, Drain(p, beyond, grown));
  }

  /** The pipeline is in order after the step, whatever lies in memory beyond the ring. */
  ghost predicate KeepsGood(w: World, e: Event)
    requires Wf(w.port) && Enabled(w, e)
  {
    if e.Tasklet? then
      forall beyond: seq<byte> | |beyond| == BUF_SIZE :: Good(Step(w, Tasklet(beyond, e.grown)))
    else
      Good(Step(w, e))
  }

  /** A step keeps the pipeline in order exactly when it is in the domain. */
  lemma StepGoodExactly(w: World, e: Event)
    requires Good(w) && Enabled(w, e)
    ensures InDomain(w.port, e) <==> KeepsGood(w, e)
  {
    match e {
      case Edge(pins) => EdgeGood(w, pins);
      case Tasklet(_, grown) =>
        if InDomain(w.port, e) {
          forall beyond: seq<byte> | |beyond| == BUF_SIZE
            ensures Good(Step(w, Tasklet(beyond, grown)))
          {
            TaskletGood(w, beyond, grown);
          }
        } else {
          var beyond := TaskletOutsideDomain(w, grown);
          assert !Good(Step(w, Tasklet(beyond, grown)));
        }
      case Read(count) => ReadGood(w, count);
      case Wake(count) => DeliverGood(w, count);
      case Open(_) =>
      case Release =>
    }
  }

  /** Every step of a run is in the domain. */
  ghost predicate Clean(w: World, es: seq<Event>)
    requires Wf(w.port) && Possible(w, es)
    decreases |es|
  {
    es == [] || (InDomain(w.port, es[0]) && (StepWf(w, es[0]); Clean(Step(w, es[0]), es[1..])))
  }

  lemma StepClean(w: World, e: Event)
    requires Good(w) && Enabled(w, e) && InDomain(w.port, e)
    ensures Good(Step(w, e))
  {
    StepGoodExactly(w, e);
    if e.Tasklet? {
      assert e == Tasklet(e.beyond, e.grown);
    }
  }

  /** The pipeline is one FIFO over every clean run. */
  lemma {:induction false} RunIsFifo(w: World, es: seq<Event>)
    requires Good(w) && Possible(w, es) && Clean(w, es)
    ensures Good(Run(w, es))
    decreases |es|
  {
    if es != [] {
      StepClean(w, es[0]);
      RunIsFifo(Step(w, es[0]), es[1..]);
    }
  }

  /** The pipeline is in order after every step of the run, whatever lies in memory
      beyond the ring at a tasklet run. */
  ghost predicate StaysGood(w: World, es: seq<Event>)
    requires Wf(w.port) && Possible(w, es)
    decreases |es|
  {
    && Good(w)
    && (es == [] || (KeepsGood(w, es[0]) && (StepWf(w, es[0]); StaysGood(Step(w, es[0]), es[1..]))))
  }

  /** A run keeps the pipeline one FIFO exactly as long as every step is in the domain. */
  lemma {:induction false} RunGoodExactly(w: World, es: seq<Event>)
    requires Good(w) && Possible(w, es)
    ensures StaysGood(w, es) <==> Clean(w, es)
    decreases |es|
  {
    if es != [] {
      StepGoodExactly(w, es[0]);
      if InDomain(w.port, es[0]) {
        StepClean(w, es[0]);
        RunGoodExactly(Step(w, es[0]), es[1..]);
      }
    }
  }

  lemma {:induction false} CleanAppend(w: World, es: seq<Event>, es': seq<Event>)
    requires Wf(w.port) && Possible(w, es) && Possible(Run(w, es), es')
    requires Clean(w, es) && Clean(Run(w, es), es')
    ensures Possible(w, es + es') && Clean(w, es + es')
    decreases |es|
  {
    RunAppend(w, es, es');
    if es == [] {
      assert es + es' == es';
    } else {
      assert (es + es')[1..] == es[1..] + es';
      StepWf(w, es[0]);
      assert (es + es')[0] == es[0];
      CleanAppend(Step(w, es[0]), es[1..], es');
    }
  }

  /** While no separator stands in the way, a reader that asks for something when there
      is something to read does not sleep, and is given a byte or finds a separator. */
  lemma ReadProgress(w: World, count: nat)
    requires Good(w) && !w.port.nullFlag && w.port.nullLocation == -1
    requires 0 < count && Unread(w.port.queue) != []
    ensures EnterRead(w.port).1 == Ready
    ensures |StepRead(w, count).delivered| > |w.delivered| || StepRead(w, count).port.nullFlag
  {
    EmptinessTestExact(w.port.queue);
    DeliversUntilNul(EnterRead(w.port).0, count);
  }

  /** A close opens the next session: its first read moves past the separator that ended
      the last one, if no read has done so yet, and otherwise makes progress. */
  lemma ReleaseStartsAnew(w: World, count: nat)
    requires Good(w) && Enabled(w, Release) && 0 < count && Unread(w.port.queue) != []
    ensures
      var w' := Step(w, Release);
      if w.port.nullLocation != -1 then
        && StepRead(w', count).consumed == w.consumed + [0]
        && StepRead(w', count).port.nullLocation == -1 && !StepRead(w', count).port.nullFlag
      else
        |StepRead(w', count).delivered| > |w.delivered| || StepRead(w', count).port.nullFlag
  {
    var w' := Step(w, Release);
    if w.port.nullLocation == -1 {
      ReadProgress(w', count);
    }
  }

  // ----- scheduling -----

  /** A tasklet run leaves none pending; after any other event one is pending exactly if
      one was or a byte has just found room in the ring. */
  lemma StepPending(w: World, e: Event)
    requires Wf(w.port) && Enabled(w, e)
    ensures |Step(w, e).accepted| >= |w.accepted|
    ensures Step(w, e).port.scheduled <==>
      !e.Tasklet? && (w.port.scheduled || |Step(w, e).accepted| > |w.accepted|)
  {
  }

  lemma {:induction false} StaysPending(w: World, es: seq<Event>)
    requires Wf(w.port) && Possible(w, es) && w.port.scheduled
    requires forall i | 0 <= i < |es| :: !es[i].Tasklet?
    ensures Run(w, es).port.scheduled && |Run(w, es).accepted| >= |w.accepted|
    decreases |es|
  {
    if es != [] {
      StepWf(w, es[0]);
      StepPending(w, es[0]);
      StaysPending(Step(w, es[0]), es[1..]);
    }
  }

  /** So in any run a tasklet run is pending exactly if a byte has been accepted since the
      last one. */
  lemma {:induction false} PendingExactly(w: World, es: seq<Event>)
    requires Wf(w.port) && Possible(w, es) && !w.port.scheduled
    requires forall i | 0 <= i < |es| :: !es[i].Tasklet?
    ensures Run(w, es).port.scheduled <==> |Run(w, es).accepted| > |w.accepted|
    decreases |es|
  {
    if es != [] {
      StepWf(w, es[0]);
      StepPending(w, es[0]);
      if Step(w, es[0]).port.scheduled {
        StaysPending(Step(w, es[0]), es[1..]);
      } else {
        PendingExactly(Step(w, es[0]), es[1..]);
      }
    }
  }

  // ----- sleeping and waking -----

  /** What the part of a read before the wait comes to: it moves past a remembered
      separator if there is one; otherwise the reader sleeps exactly if there is nothing
      to read, and then waits for the flag to be cleared. */
  lemma EntryExactly(w: World)
    requires Good(w)
    ensures
      var (port, entry) := EnterRead(w.port);
      && (entry == Skipped <==> w.port.nullLocation != -1)
      && (w.port.nullLocation == -1 ==> (entry == Asleep <==> Unread(w.port.queue) == []))
      && (entry == Asleep ==> port.waitFlag)
      && (entry == Ready ==> port == w.port)
  {
    EmptinessTestExact(w.port.queue);
  }

  /** A tasklet run that is refused a page. */
  ghost predicate Refused(p: Port, e: Event) {
    e.Tasklet? && |p.queue.mem| + |e.grown| < p.queue.dataSize + Count(p.ring)
  }

  /** No tasklet run of the run gets the pages it needs. */
  ghost predicate AllRefused(w: World, es: seq<Event>)
    requires Wf(w.port) && Possible(w, es)
    decreases |es|
  {
    es == [] ||
    ((es[0].Tasklet? ==> Refused(w.port, es[0])) && (StepWf(w, es[0]); AllRefused(Step(w, es[0]), es[1..])))
  }

  /** Until a tasklet run gets its pages a sleeping reader stays asleep, in any run, also
      one that leaves the domain. */
  lemma {:induction false} SleepsOn(w: World, es: seq<Event>)
    requires Wf(w.port) && Possible(w, es) && AllRefused(w, es) && w.port.waitFlag
    ensures Run(w, es).port.waitFlag
    decreases |es|
  {
    if es != [] {
      StepWf(w, es[0]);
      SleepsOn(Step(w, es[0]), es[1..]);
    }
  }

  /** How many bytes have ever come to the page queue. */
  ghost function Queued(w: World): nat {
    |w.consumed| + |Unread(w.port.queue)|
  }

  lemma QueuedIsAccepted(w: World)
    requires Good(w)
    ensures Queued(w) + |Live(w.port.ring)| == |w.accepted|
  {
  }

  /** A tasklet run in its domain that gets its pages wakes a sleeper up, and something
      has come for it to read. */
  lemma DrainWakes(w: World, e: Event)
    requires Good(w) && Enabled(w, e) && InDomain(w.port, e) && e.Tasklet? && !Refused(w.port, e)
    ensures !Step(w, e).port.waitFlag
    ensures Queued(Step(w, e)) > Queued(w) && Unread(Step(w, e).port.queue) != []
  {
    StepClean(w, e);
    DrainShape(w.port, e.beyond, e.grown);
    QueuedIsAccepted(w);
    QueuedIsAccepted(Step(w, e));
  }

  lemma StepQueues(w: World, e: Event)
    requires Good(w) && Enabled(w, e) && InDomain(w.port, e)
    ensures Queued(Step(w, e)) >= Queued(w)
    ensures w.port.waitFlag && !Step(w, e).port.waitFlag ==> Queued(Step(w, e)) > Queued(w)
  {
    StepClean(w, e);
    QueuedIsAccepted(w);
    QueuedIsAccepted(Step(w, e));
    if e.Tasklet? {
      if Refused(w.port, e) {
        DrainRefused(w.port, e.beyond, e.grown);
      } else {
        DrainWakes(w, e);
      }
    }
  }

  /** A clean run in which a sleeping reader gets to go on has brought a byte. */
  lemma {:induction false} WokenByAByte(w: World, es: seq<Event>)
    requires Good(w) && Possible(w, es) && Clean(w, es)
    ensures Queued(Run(w, es)) >= Queued(w)
    ensures w.port.waitFlag && !Run(w, es).port.waitFlag ==> Queued(Run(w, es)) > Queued(w)
    decreases |es|
  {
    if es != [] {
      StepQueues(w, es[0]);
      StepClean(w, es[0]);
      WokenByAByte(Step(w, es[0]), es[1..]);
    }
  }

  // ----- answers -----

  /** What a read is answered: nothing yet if there is nothing to read; 0 if it only moves
      past a separator, or the session is over, or it asks for nothing, or a separator is
      next; and otherwise how much of what it asks for there is before the next one. */
  lemma ReadAnsweredExactly(w: World, count: nat)
    requires Good(w)
    ensures
      var u := Unread(w.port.queue);
      StepRead(w, count).answers ==
      if w.port.nullLocation != -1 then w.answers + [0]
      else if u == [] then w.answers
      else if w.port.nullFlag then w.answers + [0]
      else w.answers + [UntilNul(u[..Min(count, |u|)])]
  {
    EntryExactly(w);
    if w.port.nullLocation == -1 && Unread(w.port.queue) != [] && !w.port.nullFlag {
      DeliversUntilNul(w.port, count);
    }
  }

  /** An open is answered 0 if it is for reading only; any other gets an error, -13. */
  lemma OpenAnsweredExactly(w: World, readOnly: bool)
    requires Wf(w.port) && Enabled(w, Open(readOnly))
    ensures
      var w' := Step(w, Open(readOnly));
      && w'.answers == w.answers + [if readOnly then 0 else -13]
      && w'.handles == (if readOnly then w.handles + 1 else w.handles)
      && w'.port == w.port.(nprocs := 1)
  {
  }

  /** The sum of the answers that are not errors. */
  function Told(answers: seq<int>): nat {
    if answers == [] then 0 else Told(answers[..|answers| - 1]) + Max(answers[|answers| - 1], 0)
  }

  lemma ToldMore(answers: seq<int>, r: int)
    ensures Told(answers + [r]) == Told(answers) + Max(r, 0)
  {
    assert (answers + [r])[..|answers|] == answers;
  }

  lemma StepTold(w: World, e: Event)
    requires Wf(w.port) && Enabled(w, e) && Told(w.answers) == |w.delivered|
    ensures Told(Step(w, e).answers) == |Step(w, e).delivered|
  {
    if Step(w, e).answers != w.answers {
      var r := Step(w, e).answers[|w.answers|];
      assert Step(w, e).answers == w.answers + [r];
      ToldMore(w.answers, r);
    }
  }

  /** Over every run, what readers are told they have been given is what they were given. */
  lemma {:induction false} RunTold(w: World, es: seq<Event>)
    requires Wf(w.port) && Possible(w, es) && Told(w.answers) == |w.delivered|
    ensures Told(Run(w, es).answers) == |Run(w, es).delivered|
    decreases |es|
  {
    if es != [] {
      StepWf(w, es[0]);
      StepTold(w, es[0]);
      RunTold(Step(w, es[0]), es[1..]);
    }
  }

  // ----- ring and pages in step -----

  /** The ring and the pages have been filled in step. */
  ghost predicate Aligned(p: Port) {
    p.ring.head == p.queue.tailOffset % BUF_SIZE
  }

  /** As long as they are, the end of a page is an end of the ring: a tasklet run is in
      its domain exactly if it does not have to wrap. */
  lemma AlignedDomain(p: Port)
    requires Wf(p) && Aligned(p) && 0 < Count(p.ring)
    ensures DrainDomain(p) <==> p.ring.head + Count(p.ring) <= BUF_SIZE
  {
  }

  /** A page is a whole number of rings long. */
  lemma RingOfPage(x: nat)
    ensures x % PAGE_SIZE % BUF_SIZE == x % BUF_SIZE
  {
    assert x == x / PAGE_SIZE * 4 * BUF_SIZE + x % PAGE_SIZE;
  }

  lemma OffsetsInStep(head: nat, tailOffset: nat, n: nat)
    requires head == tailOffset % BUF_SIZE
    ensures (head + n) % BUF_SIZE == (tailOffset + n) % PAGE_SIZE % BUF_SIZE
  {
    RingOfPage(tailOffset + n);
    assert tailOffset == tailOffset / BUF_SIZE * BUF_SIZE + head;
  }

  lemma DrainAligned(p: Port, beyond: seq<byte>, grown: seq<byte>)
    requires Wf(p) && Sound(p.queue) && Runnable(p, beyond, grown) && InDomain(p, Tasklet(beyond, grown))
    requires Aligned(p)
    ensures Aligned(Drain(p, beyond, grown))
  {
    if |p.queue.mem| + |grown| >= p.queue.dataSize + Count(p.ring) {
      DrainTail(p, beyond, grown);
      DrainMovesHead(p, beyond, grown);
      OffsetsInStep(p.ring.head, p.queue.tailOffset, Count(p.ring));
    }
  }

  lemma StepAligned(w: World, e: Event)
    requires Good(w) && Aligned(w.port) && Enabled(w, e) && InDomain(w.port, e)
    ensures Aligned(Step(w, e).port)
  {
    match e {
      case Edge(_) =>
      case Tasklet(beyond, grown) => DrainAligned(w.port, beyond, grown);
      case Read(_) =>
      case Wake(_) =>
      case Open(_) =>
      case Release =>
    }
  }

  /** Every clean run keeps them in step. */
  lemma {:induction false} RunAligned(w: World, es: seq<Event>)
    requires Good(w) && Aligned(w.port) && Possible(w, es) && Clean(w, es)
    ensures Aligned(Run(w, es).port)
    decreases |es|
  {
    if es != [] {
      StepClean(w, es[0]);
      StepAligned(w, es[0]);
      RunAligned(Step(w, es[0]), es[1..]);
    }
  }

  /** So after any clean run from the start, what decides whether the next tasklet run is
      in its domain is the ring alone: no page ends where the ring does not. */
  lemma CleanRunDomain(w: World, es: seq<Event>)
    requires Boot(w) && Possible(w, es) && Clean(w, es)
    ensures
      var r := Run(w, es).port.ring;
      Count(r) > 0 ==> (DrainDomain(Run(w, es).port) <==> r.head + Count(r) <= BUF_SIZE)
  {
    BootGood(w);
    RunAligned(w, es);
    if Count(Run(w, es).port.ring) > 0 {
      AlignedDomain(Run(w, es).port);
    }
  }

  // ----- sessions -----

  ghost predicate NoRelease(es: seq<Event>) {
    forall i | 0 <= i < |es| :: !es[i].Release?
  }

  /** Once a read has stopped at a separator, no byte is delivered until the device is
      closed, in any run, also one that leaves the domain. */
  lemma {:induction false} SessionOver(w: World, es: seq<Event>)
    requires Wf(w.port) && Possible(w, es) && NoRelease(es)
    requires w.port.nullFlag
    ensures Run(w, es).delivered == w.delivered && Run(w, es).port.nullFlag
    decreases |es|
  {
    if es != [] {
      StepWf(w, es[0]);
      assert w.delivered + [] == w.delivered;
      SessionOver(Step(w, es[0]), es[1..]);
    }
  }

  /** How far a session has come: a separator left over from an earlier one, then one
      stretch of a record, then the separator that ends it. */
  datatype Progress = Progress(pre: seq<byte>, record: seq<byte>, post: seq<byte>) {
    function All(): seq<byte> {
      pre + record + post
    }

    ghost predicate Ok() {
      && (pre == [] || pre == [0])
      && (post == [] || post == [0])
      && NulFree(record)
    }
  }

  ghost predicate InSession(w0: World, w: World, s: Progress) {
    && s.Ok()
    && w.consumed == w0.consumed + s.All()
    && w.delivered == w0.delivered + s.record
    && (!w.port.nullFlag ==> s.post == [] && (w.port.nullLocation != -1 ==> s.pre == s.record == []))
    && (w.port.nullFlag ==> s.post == if w.port.nullLocation == -1 then [0] else [])
  }

  lemma Extend(w0: World, w: World, s: Progress, out: seq<byte>)
    requires InSession(w0, w, s) && s.post == []
    ensures w.consumed + out == w0.consumed + s.(record := s.record + out).All()
    ensures w.delivered + out == w0.delivered + (s.record + out)
  {
    assert s.(record := s.record + out).All() == s.All() + out;
  }

  lemma DeliverInSession(w0: World, w: World, s: Progress, count: nat) returns (s': Progress)
    requires Good(w) && !w.port.waitFlag && ReadInDomain(w.port, count) && InSession(w0, w, s)
    ensures InSession(w0, StepDeliver(w, count), s')
  {
    if w.port.nullFlag {
      s' := s;
      assert w.consumed + [] == w.consumed && w.delivered + [] == w.delivered;
    } else {
      var (port, out) := Deliver(w.port, count);
      s' := s.(record := s.record + out);
      DeliversUntilNul(w.port, count);
      if w.port.nullLocation != -1 {
        PendingStopsRead(w.port, count);
      }
      Extend(w0, w, s, out);
    }
  }

  lemma ReadInSession(w0: World, w: World, s: Progress, count: nat) returns (s': Progress)
    requires Good(w) && InDomain(w.port, Read(count)) && InSession(w0, w, s)
    ensures InSession(w0, StepRead(w, count), s')
  {
    var (port, entry) := EnterRead(w.port);
    match entry {
      case Skipped =>
        s' := if w.port.nullFlag then s.(post := [0]) else s.(pre := [0]);
        assert s'.All() == s.All() + [0];
      case Asleep =>
        s' := s;
      case Ready =>
        ReadGood(w, count);
        s' := DeliverInSession(w0, w.(port := port), s, count);
    }
  }

  lemma StepInSession(w0: World, w: World, s: Progress, e: Event) returns (s': Progress)
    requires Good(w) && Enabled(w, e) && InDomain(w.port, e) && !e.Release? && InSession(w0, w, s)
    ensures InSession(w0, Step(w, e), s')
  {
    match e {
      case Edge(_) => s' := s;
      case Tasklet(_, _) => s' := s;
      case Read(count) => s' := ReadInSession(w0, w, s, count);
      case Wake(count) => s' := DeliverInSession(w0, w, s, count);
      case Open(_) => s' := s;
    }
  }

  lemma {:induction false} RunInSession(w0: World, w: World, s: Progress, es: seq<Event>) returns (s': Progress)
    requires Good(w) && Possible(w, es) && Clean(w, es) && NoRelease(es) && InSession(w0, w, s)
    ensures InSession(w0, Run(w, es), s')
    decreases |es|
  {
    if es == [] {
      s' := s;
    } else {
      StepClean(w, es[0]);
      s' := StepInSession(w0, w, s, es[0]);
      s' := RunInSession(w0, Step(w, es[0]), s', es[1..]);
    }
  }

  lemma ConsumedAreAccepted(w: World)
    requires Good(w)
    ensures w.consumed <= w.accepted
  {
    assert w.accepted == w.consumed + (Unread(w.port.queue) + Live(w.port.ring));
  }

  /** Sessions are separated: between two closes readers are given one stretch of the
      accepted bytes, with no separator inside it. Around it they only move past a
      separator left from the session before and past the one that ends theirs; and a
      session that has ended has ended at a separator. */
  lemma SessionIsOneStretch(w: World, es: seq<Event>) returns (s: Progress)
    requires Good(w) && !w.port.nullFlag
    requires Possible(w, es) && Clean(w, es) && NoRelease(es)
    ensures
      var w' := Run(w, es);
      && s.Ok()
      && w'.delivered == w.delivered + s.record
      && w'.consumed == w.consumed + s.All() <= w'.accepted
      && (!w'.port.nullFlag ==> s.post == [])
      && (w'.port.nullFlag ==> s.post == [0] || (Unread(w'.port.queue) != [] && Unread(w'.port.queue)[0] == 0))
  {
    var s0 := Progress([], [], []);
    assert w.consumed + s0.All() == w.consumed && w.delivered + s0.record == w.delivered;
    s := RunInSession(w, w, s0, es);
    RunIsFifo(w, es);
    ConsumedAreAccepted(Run(w, es));
  }
}
