/** The driver in place and the runs of `PortRuns` are the same thing: whatever sequence
    of calls the kernel makes, executing it on the driver is a run, and what the run
    records as delivered is what lands in the readers' buffers. */
module PortDispatch {
  import opened Bytes
  import opened Pages
  import opened PortSpec
  import opened PortRuns
  import opened PortCalls
  import opened PortDriver

  /** What calls have led to: the bytes handed to readers, and the answers of those that
      have returned. */
  datatype Outcome = Outcome(out: seq<byte>, answers: seq<int>) {
    function Then(more: Outcome): Outcome {
      Outcome(out + more.out, answers + more.answers)
    }

    /** Adding it to what has been seen in `w` gives what has been seen in `w'`. */
    ghost predicate Leads(w: World, w': World) {
      w'.delivered == w.delivered + out && w'.answers == w.answers + answers
    }
  }

  const NOTHING := Outcome([], [])

  lemma LeadsNowhere(w: World)
    ensures NOTHING.Leads(w, w)
  {
  }

  lemma LeadsOn(w: World, o: Outcome, v: World, more: Outcome, u: World)
    requires o.Leads(w, v) && more.Leads(v, u)
    ensures o.Then(more).Leads(w, u)
  {
  }

  /** A call on the driver has done what event `e` does to the run, and `handles` are open
      after it. */
  ghost predicate Did(w: World, e: Event, port: Port, o: Outcome, handles: nat)
    requires Wf(w.port)
  {
    && Enabled(w, e)
    && port == Step(w, e).port
    && handles == Step(w, e).handles
    && o.Leads(w, Step(w, e))
  }

  /** Executing `calls` from `w` on has been the run `es`, and has left the driver in state
      `port`. */
  ghost predicate Executed(w: World, calls: seq<Call>, es: seq<Event>, port: Port, o: Outcome)
    requires Wf(w.port)
  {
    && Follows(w, calls, es) && Possible(w, es)
    && port == Run(w, es).port
    && o.Leads(w, Run(w, es))
  }

  lemma {:induction false} RunMore(w: World, calls: seq<Call>, e: Event, es: seq<Event>)
    requires Wf(w.port) && calls != [] && Callable(w, calls[0]) && IsEvent(w, calls[0], e) && Enabled(w, e)
    requires Wf(Step(w, e).port) && Follows(Step(w, e), calls[1..], es) && Possible(Step(w, e), es)
    ensures Follows(w, calls, [e] + es)
    ensures Possible(w, [e] + es) && Run(w, [e] + es) == Run(Step(w, e), es)
  {
    assert ([e] + es)[1..] == es;
  }

  lemma ExecutedMore(w: World, calls: seq<Call>, e: Event, port: Port, o: Outcome, handles: nat,
                     es: seq<Event>, port': Port, more: Outcome)
    requires Wf(w.port) && calls != [] && Callable(w, calls[0]) && IsEvent(w, calls[0], e)
    requires Did(w, e, port, o, handles) && Wf(Step(w, e).port)
    requires Executed(Step(w, e), calls[1..], es, port', more)
    ensures Executed(w, calls, [e] + es, port', o.Then(more))
  {
    RunMore(w, calls, e, es);
    LeadsOn(w, o, Step(w, e), more, Run(Step(w, e), es));
  }

  /** Page ownership: pages are only ever added and freed, and no page comes from elsewhere. */
  twostate predicate OwnsPages(d: Driver)
    reads d
  {
    && (forall k | 0 <= k < |d.memList| :: d.memList[k] in old(d.memList) || fresh(d.memList[k]))
    && old(d.listed) <= d.listed && old(d.freed) <= d.freed
  }

  lemma OverwrittenPrefix(s: seq<byte>, t: seq<byte>)
    requires |t| <= |s|
    ensures Overwrite(s, 0, t)[..|t|] == t
  {
  }

  method DispatchRead(d: Driver, count: nat, ghost w: World) returns (o: Outcome)
    requires d.Valid() && d.View() == w.port
    modifies d
    ensures d.Valid() && OwnsPages(d)
    ensures Did(w, PortRuns.Read(count), d.View(), o, w.handles)
  {
    var ubuf := new byte[count];
    ghost var before := ubuf[..];
    var entry, n := d.Read(ubuf, count);
    if entry == Ready {
      OverwrittenPrefix(before, Deliver(EnterRead(w.port).0, count).1);
    }
    assert w.delivered + [] == w.delivered;
    o := if entry == Asleep then NOTHING else Outcome(ubuf[..n], [n]);
  }

  method DispatchResume(d: Driver, count: nat, ghost w: World) returns (o: Outcome)
    requires d.Valid() && d.View() == w.port && !w.port.waitFlag
    modifies d
    ensures d.Valid() && OwnsPages(d)
    ensures Did(w, Wake(count), d.View(), o, w.handles)
  {
    var ubuf := new byte[count];
    OverwrittenPrefix(ubuf[..], Deliver(w.port, count).1);
    var n := d.ReadBody(ubuf, count);
    o := Outcome(ubuf[..n], [n]);
  }

  method DispatchTasklet(d: Driver, beyond: seq<byte>, left: nat, ghost w: World) returns (ghost e: Event)
    requires d.Valid() && d.View() == w.port && Callable(w, RunTasklet(beyond, left))
    modifies d, d.memList
    ensures d.Valid() && OwnsPages(d)
    ensures IsEvent(w, RunTasklet(beyond, left), e) && Did(w, e, d.View(), NOTHING, w.handles)
  {
    var alloc := new Allocator(left);
    ghost var grown := d.BottomHalf(beyond, alloc);
    e := Tasklet(beyond, grown);
    LeadsNowhere(w);
  }

  /** Executes a call that the kernel can make. */
  method Dispatch(d: Driver, c: Call, handles: nat, ghost w: World)
    returns (o: Outcome, newHandles: nat, ghost e: Event)
    requires d.Valid() && d.View() == w.port && handles == w.handles && Callable(w, c)
    modifies d, d.memList, d.buf
    ensures d.Valid() && OwnsPages(d)
    ensures IsEvent(w, c, e) && Did(w, e, d.View(), o, newHandles)
  {
    o, newHandles := NOTHING, handles;
    LeadsNowhere(w);
    match c {
      case Interrupted(pins) =>
        d.DummyportInterrupt(pins);
        e := Edge(pins);
      case RunTasklet(beyond, left) =>
        e := DispatchTasklet(d, beyond, left, w);
      case CallRead(count) =>
        o := DispatchRead(d, count, w);
        e := PortRuns.Read(count);
      case ResumeRead(count) =>
        o := DispatchResume(d, count, w);
        e := Wake(count);
      case CallOpen(readOnly) =>
        var r := d.Open(readOnly);
        newHandles := if r == 0 then handles + 1 else handles;
        o := Outcome([], [r]);
        e := PortRuns.Open(readOnly);
      case Close =>
        var r := d.Release();
        newHandles := handles - 1;
        o := Outcome([], [r]);
        e := PortRuns.Release;
    }
  }

  /** Whether the kernel can make a call. */
  predicate CanCall(d: Driver, c: Call, handles: nat)
    reads d
  {
    match c
    case RunTasklet(beyond, _) => d.scheduled && |beyond| == BUF_SIZE
    case ResumeRead(_) => !d.waitFlag
    case CallOpen(_) => d.nprocs == 0
    case Close => handles > 0
    case _ => true
  }

  /** Executes those of the `calls` that the kernel can make, one after the other. */
  method Execute(d: Driver, calls: seq<Call>, handles: nat, ghost w: World)
    returns (o: Outcome, ghost es: seq<Event>)
    requires d.Valid() && d.View() == w.port && handles == w.handles
    modifies d, d.memList, d.buf
    ensures d.Valid() && OwnsPages(d)
    ensures Executed(w, calls, es, d.View(), o)
    decreases |calls|
  {
    if calls == [] {
      o, es := NOTHING, [];
      LeadsNowhere(w);
    } else if CanCall(d, calls[0], handles) {
      var newHandles, more;
      ghost var e;
      o, newHandles, e := Dispatch(d, calls[0], handles, w);
      StepWf(w, e);
      ghost var port := d.View();
      more, es := Execute(d, calls[1..], newHandles, Step(w, e));
      ExecutedMore(w, calls, e, port, o, newHandles, es, d.View(), more);
      o, es := o.Then(more), [e] + es;
    } else {
      o, es := Execute(d, calls[1..], handles, w);
    }
  }

  /** From loading the module on, whatever calls are made: the driver's state is that of
      a run of these calls, its readers have been given what that run delivers, and the
      answers are those of the run. */
  method ExecuteFromBoot(calls: seq<Call>)
    returns (d: Driver, o: Outcome, ghost w: World, ghost es: seq<Event>)
    ensures fresh(d) && d.Valid()
    ensures Boot(w) && Follows(w, calls, es) && Possible(w, es)
    ensures d.View() == Run(w, es).port
    ensures o.out == Run(w, es).delivered && o.answers == Run(w, es).answers
  {
    d := new Driver();
    w := World(d.View(), [], [], [], [], [], [], 0);
    o, es := Execute(d, calls, 0, w);
  }
}
