/** What the kernel may call on the asgn2 driver, and the events of a run that it amounts to. */
module PortCalls {
  import opened Bytes
  import opened Pages
  import opened PortSpec
  import opened PortRuns

  /** `beyond` is what lies in memory after the ring, `left` how many pages the machine has
      to give when the tasklet runs. */
  datatype Call =
    | Interrupted(pins: bv32)
    | RunTasklet(beyond: seq<byte>, left: nat)
    | CallRead(count: nat)
    | ResumeRead(count: nat)
    | CallOpen(readOnly: bool)
    | Close

  /** The kernel runs a tasklet only if it is scheduled, lets a sleeping reader go on only
      once the flag it waits for is clear and a sleeping opener once nobody has the
      device, and closes only what is open. */
  ghost predicate Callable(w: World, c: Call) {
    match c
    case RunTasklet(beyond, _) => w.port.scheduled && |beyond| == BUF_SIZE
    case ResumeRead(_) => !w.port.waitFlag
    case CallOpen(_) => w.port.nprocs == 0
    case Close => w.handles > 0
    case _ => true
  }

  /** `e` is the call as an event of a run, for some content of the pages handed out. */
  ghost predicate IsEvent(w: World, c: Call, e: Event) {
    match c
    case Interrupted(pins) => e == Edge(pins)
    case RunTasklet(beyond, left) =>
      && e.Tasklet? && e.beyond == beyond
      && Allotted(|w.port.queue.mem|, w.port.queue.dataSize + Count(w.port.ring), left, e.grown)
    case CallRead(count) => e == Read(count)
    case ResumeRead(count) => e == Wake(count)
    case CallOpen(readOnly) => e == Open(readOnly)
    case Close => e == Release
  }

  lemma EventEnabled(w: World, c: Call, e: Event)
    requires Callable(w, c) && IsEvent(w, c, e)
    ensures Enabled(w, e)
  {
  }

  lemma SomeEvent(w: World, c: Call) returns (e: Event)
    requires Wf(w.port)
    ensures IsEvent(w, c, e)
  {
    match c {
      case Interrupted(pins) => e := Edge(pins);
      case RunTasklet(beyond, left) =>
        var grown := SomeAllotment(|w.port.queue.mem|, w.port.queue.dataSize + Count(w.port.ring), left);
        e := Tasklet(beyond, grown);
      case CallRead(count) => e := Read(count);
      case ResumeRead(count) => e := Wake(count);
      case CallOpen(readOnly) => e := Open(readOnly);
      case Close => e := Release;
    }
  }

  /** `es` are the events of those of the `calls` that the kernel can make. */
  ghost predicate Follows(w: World, calls: seq<Call>, es: seq<Event>)
    requires Wf(w.port)
    decreases |calls|
  {
    if calls == [] then es == []
    else if Callable(w, calls[0]) then
      && es != [] && IsEvent(w, calls[0], es[0]) && Enabled(w, es[0])
      && (StepWf(w, es[0]); Follows(Step(w, es[0]), calls[1..], es[1..]))
    else Follows(w, calls[1..], es)
  }

  lemma {:induction false} FirstCall(w: World, c: Call, cs: seq<Call>, es: seq<Event>)
    requires Wf(w.port) && Callable(w, c) && Follows(w, [c] + cs, es)
    ensures es != [] && IsEvent(w, c, es[0]) && Enabled(w, es[0])
    ensures Wf(Step(w, es[0]).port) && Follows(Step(w, es[0]), cs, es[1..])
  {
    assert ([c] + cs)[1..] == cs;
    StepWf(w, es[0]);
  }

  /** Events that follow calls make up a run. */
  lemma {:induction false} FollowsIsPossible(w: World, calls: seq<Call>, es: seq<Event>)
    requires Wf(w.port) && Follows(w, calls, es)
    ensures Possible(w, es)
    decreases |calls|
  {
    if calls != [] {
      if Callable(w, calls[0]) {
        StepWf(w, es[0]);
        FollowsIsPossible(Step(w, es[0]), calls[1..], es[1..]);
      } else {
        FollowsIsPossible(w, calls[1..], es);
      }
    }
  }

  /** Any calls can be followed. */
  lemma {:induction false} SomeRun(w: World, calls: seq<Call>) returns (es: seq<Event>)
    requires Wf(w.port)
    ensures Follows(w, calls, es)
    decreases |calls|
  {
    if calls == [] {
      es := [];
    } else if Callable(w, calls[0]) {
      var e := SomeEvent(w, calls[0]);
      EventEnabled(w, calls[0], e);
      StepWf(w, e);
      var rest := SomeRun(Step(w, e), calls[1..]);
      es := [e] + rest;
    } else {
      es := SomeRun(w, calls[1..]);
    }
  }

  /** A run that follows one list of calls and then another can be split between them. */
  lemma {:induction false} SplitRun(w: World, calls: seq<Call>, calls': seq<Call>, es: seq<Event>)
    returns (first: seq<Event>, second: seq<Event>)
    requires Wf(w.port) && Follows(w, calls + calls', es)
    ensures es == first + second && Follows(w, calls, first) && Possible(w, first)
    ensures Follows(Run(w, first), calls', second)
    decreases |calls|
  {
    if calls == [] {
      assert calls + calls' == calls';
      first, second := [], es;
    } else {
      assert (calls + calls')[1..] == calls[1..] + calls';
      if Callable(w, calls[0]) {
        StepWf(w, es[0]);
        first, second := SplitRun(Step(w, es[0]), calls[1..], calls', es[1..]);
        first := [es[0]] + first;
      } else {
        first, second := SplitRun(w, calls[1..], calls', es);
      }
    }
  }
}
