/** Where the asgn2 pipeline stops for good or shows what is not so: runs outside the
    domain, described to their end. */
module PortStuck {
  import opened Bytes
  import opened Pages
  import opened PortSpec
  import opened PortQueue
  import opened PortRuns

  // ----- a full ring -----

  ghost predicate FullAndIdle(p: Port) {
    Count(p.ring) == BUF_SIZE - 1 && !p.scheduled
  }

  /** The tasklet is only ever scheduled by a byte that finds room. Once the ring is
      full and no run is pending, no byte is accepted any more, in any run. */
  lemma {:induction false} FullRingIsStuck(w: World, es: seq<Event>)
    requires Wf(w.port) && Possible(w, es) && FullAndIdle(w.port)
    ensures
      var w' := Run(w, es);
      && FullAndIdle(w'.port)
      && w'.accepted == w.accepted
      && Live(w'.port.ring) == Live(w.port.ring)
    decreases |es|
  {
    if es != [] {
      var w' := Step(w, es[0]);
      StepWf(w, es[0]);
      if es[0].Edge? && !w.port.sigFlag {
        PutIsBoundedEnqueue(w.port.ring, w'.port.halfByte);
      }
      assert FullAndIdle(w'.port) && Live(w'.port.ring) == Live(w.port.ring) && w'.accepted == w.accepted;
      FullRingIsStuck(w', es[1..]);
    }
  }

  /** One refused allocation with a full ring is enough to get there. */
  lemma RefusalIsFatal(w: World, e: Event, es: seq<Event>)
    requires Good(w) && Count(w.port.ring) == BUF_SIZE - 1
    requires e.Tasklet? && Possible(w, [e] + es)
    requires |w.port.queue.mem| + |e.grown| < w.port.queue.dataSize + Count(w.port.ring)
    ensures Run(w, [e] + es).accepted == w.accepted
  {
    assert ([e] + es)[1..] == es;
    StepWf(w, e);
    DrainRefused(w.port, e.beyond, e.grown);
    FullRingIsStuck(Step(w, e), es);
  }

  /** A run that accepts another byte. */
  ghost predicate Accepts(w: World, es: seq<Event>)
    requires Wf(w.port)
  {
    Possible(w, es) && |Run(w, es).accepted| > |w.accepted|
  }

  /** With room in the ring the next completed byte is accepted, and schedules a run. */
  lemma RoomAccepts(w: World) returns (es: seq<Event>)
    requires Wf(w.port) && Count(w.port.ring) < BUF_SIZE - 1
    ensures Accepts(w, es) && Run(w, es).port.scheduled
  {
    SpaceAndCount(w.port.ring);
    RunOne(w, Edge(0));
    es := [Edge(0)];
    if w.port.sigFlag {
      var w' := Step(w, Edge(0));
      StepWf(w, Edge(0));
      RunOne(w', Edge(0));
      RunAppend(w, es, es);
      es := es + es;
    }
  }

  /** What an allocator that has pages hands to a run. */
  function Supply(p: Port): seq<byte> {
    if |p.queue.mem| >= p.queue.dataSize + Count(p.ring) then [] else seq(PAGE_SIZE, _ => 0)
  }

  /** It is all the run asks for. */
  lemma SupplyIsEnough(p: Port)
    requires Wf(p) && Sound(p.queue)
    ensures Growth(|p.queue.mem|, p.queue.dataSize + Count(p.ring), Supply(p))
    ensures |p.queue.mem| + |Supply(p)| >= p.queue.dataSize + Count(p.ring)
  {
  }

  /** A run that is pending makes room as soon as there are pages. */
  lemma PendingRunMakesRoom(w: World) returns (es: seq<Event>)
    requires Good(w) && w.port.scheduled
    ensures Accepts(w, es) && Run(w, es).port.scheduled
  {
    var beyond := seq(BUF_SIZE, _ => 0);
    var e := Tasklet(beyond, Supply(w.port));
    SupplyIsEnough(w.port);
    DrainShape(w.port, beyond, Supply(w.port));
    StepWf(w, e);
    RunOne(w, e);
    var more := RoomAccepts(Step(w, e));
    RunAppend(w, [e], more);
    es := [e] + more;
  }

  /** From any state in order the pipeline can go on, exactly if the ring is not full
      with no run pending; when it can, it also gets its next tasklet run. */
  lemma RecoversExactly(w: World)
    requires Good(w)
    ensures (exists es :: Accepts(w, es)) <==> !FullAndIdle(w.port)
    ensures !FullAndIdle(w.port) ==> exists es :: Accepts(w, es) && Run(w, es).port.scheduled
  {
    if FullAndIdle(w.port) {
      forall es | Possible(w, es)
        ensures !Accepts(w, es)
      {
        FullRingIsStuck(w, es);
      }
    } else if Count(w.port.ring) < BUF_SIZE - 1 {
      var es := RoomAccepts(w);
    } else {
      var es := PendingRunMakesRoom(w);
    }
  }

  /** So a refused allocation only delays the pipeline exactly if it does not hit a
      full ring. */
  lemma RefusalDelaysExactly(w: World, e: Event)
    requires Good(w) && e.Tasklet? && Enabled(w, e)
    requires |w.port.queue.mem| + |e.grown| < w.port.queue.dataSize + Count(w.port.ring)
    ensures Good(Step(w, e))
    ensures (exists es :: Accepts(Step(w, e), es)) <==> Count(w.port.ring) < BUF_SIZE - 1
  {
    StepClean(w, e);
    DrainRefused(w.port, e.beyond, e.grown);
    RecoversExactly(Step(w, e));
  }

  // ----- a refused open -----

  /** At most one process has the device, and each that has it is counted. */
  ghost predicate Exclusive(w: World) {
    w.handles <= w.port.nprocs <= 1
  }

  lemma {:induction false} RunExclusive(w: World, es: seq<Event>)
    requires Wf(w.port) && Possible(w, es) && Exclusive(w)
    ensures Exclusive(Run(w, es))
    decreases |es|
  {
    if es != [] {
      StepWf(w, es[0]);
      RunExclusive(Step(w, es[0]), es[1..]);
    }
  }

  /** An open that was refused is still counted, though nobody will close it. */
  ghost predicate LockedOut(w: World) {
    w.port.nprocs == 1 && w.handles == 0
  }

  lemma {:induction false} LockedOutIsStuck(w: World, es: seq<Event>)
    requires Wf(w.port) && Possible(w, es) && LockedOut(w)
    ensures LockedOut(Run(w, es))
    decreases |es|
  {
    if es != [] {
      StepWf(w, es[0]);
      LockedOutIsStuck(Step(w, es[0]), es[1..]);
    }
  }

  /** A run after which the device can be opened. */
  ghost predicate LeadsToOpen(w: World, es: seq<Event>)
    requires Wf(w.port)
  {
    Possible(w, es) && Enabled(Run(w, es), Open(true))
  }

  /** The device can be opened again, sooner or later, exactly if no refused open has
      been left counted; one refused open locks everybody out for good. */
  lemma OpensAgainExactly(w: World)
    requires Wf(w.port) && Exclusive(w)
    ensures (exists es :: LeadsToOpen(w, es)) <==> !LockedOut(w)
    ensures Enabled(w, Open(false)) ==> LockedOut(Step(w, Open(false)))
  {
    if LockedOut(w) {
      forall es | Possible(w, es)
        ensures !LeadsToOpen(w, es)
      {
        LockedOutIsStuck(w, es);
      }
    } else if w.handles == 0 {
      assert LeadsToOpen(w, []);
    } else {
      RunOne(w, Release);
      assert LeadsToOpen(w, [Release]);
    }
  }

  // ----- a separator at the end of a page -----

  /** Once the head offset has run to the end of its page, no read delivers anything. */
  lemma {:induction false} HeadPastPageIsStuck(w: World, es: seq<Event>)
    requires Wf(w.port) && Possible(w, es) && w.port.queue.headOffset == PAGE_SIZE
    ensures Run(w, es).delivered == w.delivered && Run(w, es).port.queue.headOffset == PAGE_SIZE
    decreases |es|
  {
    if es != [] {
      StepWf(w, es[0]);
      assert w.delivered + [] == w.delivered;
      HeadPastPageIsStuck(Step(w, es[0]), es[1..]);
    }
  }

  /** Skipping a separator that is the last byte of its page gets there. */
  lemma SkipAtPageEndIsFatal(w: World, count: nat, es: seq<Event>)
    requires Good(w) && Possible(w, [Read(count)] + es)
    requires w.port.nullLocation == w.port.queue.headOffset == PAGE_SIZE - 1
    ensures Run(w, [Read(count)] + es).delivered == w.delivered
  {
    assert ([Read(count)] + es)[1..] == es;
    StepWf(w, Read(count));
    HeadPastPageIsStuck(Step(w, Read(count)), es);
  }

  // ----- a tasklet run over the end of a page -----

  /** A run that goes over the end of the first page, as far as the reader has come on
      it, makes a queue with a whole page to read look empty, and the reader sleeps. */
  lemma StraddleHidesAPage(p: Port, beyond: seq<byte>, grown: seq<byte>)
    requires Wf(p) && Sound(p.queue) && p.queue.tailIndex == 0 && |beyond| == BUF_SIZE
    requires p.nullLocation == -1
    requires p.queue.tailOffset + Count(p.ring) == PAGE_SIZE + p.queue.headOffset > PAGE_SIZE
    requires |p.queue.mem| + |grown| >= p.queue.dataSize + Count(p.ring)
    ensures
      var p' := Drain(p, beyond, grown);
      && |Unread(p'.queue)| == PAGE_SIZE
      && LooksEmpty(p'.queue)
      && EnterRead(p').1 == Asleep
  {
    DrainShape(p, beyond, grown);
  }

  // ----- a read up to a page boundary -----

  function Ones(n: nat): (s: seq<byte>)
    ensures |s| == n && NulFree(s)
  {
    seq(n, _ => 1)
  }

  /** Two full pages, of which a reader asks for the first: both are freed. */
  lemma BoundaryReadLosesAPage(p: Port)
    requires Wf(p) && !p.nullFlag && p.queue == Queue(Ones(2 * PAGE_SIZE), 2 * PAGE_SIZE, 0, 2, 0, 0)
    ensures Sound(p.queue) && |Unread(p.queue)| == 2 * PAGE_SIZE
    ensures
      var (p', out) := Deliver(p, PAGE_SIZE);
      out == Ones(PAGE_SIZE) && p'.queue == FRESH_QUEUE
  {
    var w := Window(p.queue, PAGE_SIZE);
    assert w == Ones(PAGE_SIZE) && w[..PAGE_SIZE] == w;
    UntilNulUnique(w, PAGE_SIZE);
  }
}
