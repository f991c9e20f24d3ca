/** Which byte sequences can go through the asgn2 pipeline from end to end: a condition
    on where their separators stand, and nothing else. */
module PortStreams {
  import opened Bytes
  import opened Pages
  import opened PortSpec
  import opened PortQueue
  import opened PortRuns
  import opened PortPrompt
  import opened PortCalls
  import opened PortWitness

  /** Neither the first nor the last byte of a page. */
  predicate InsidePage(pos: nat) {
    0 < pos % PAGE_SIZE < PAGE_SIZE - 1
  }

  /** With `at` bytes before it, no separator of `bs` starts or ends a page. */
  ghost predicate Placed(bs: seq<byte>, at: nat) {
    forall k | 0 <= k < |bs| && bs[k] == 0 :: InsidePage(at + k)
  }

  // ----- nothing else can be consumed -----

  /** All that readers have moved past was well placed, the head is where they are, and a
      remembered separator does not start a page. */
  ghost predicate Settled(w: World) {
    && Placed(w.consumed, 0)
    && w.port.queue.headOffset == |w.consumed| % PAGE_SIZE
    && (w.port.nullLocation != -1 ==> w.port.queue.headOffset != 0)
  }

  lemma OffsetMore(h: nat, n: nat, k: nat)
    requires h == n % PAGE_SIZE
    ensures (h + k) % PAGE_SIZE == (n + k) % PAGE_SIZE
  {
  }

  lemma PlacedMore(s: seq<byte>, t: seq<byte>, h: nat, h': nat)
    requires Placed(s, 0) && NulFree(t)
    requires h == |s| % PAGE_SIZE && h' == (h + |t|) % PAGE_SIZE
    ensures Placed(s + t, 0) && h' == |s + t| % PAGE_SIZE
  {
    OffsetMore(h, |s|, |t|);
  }

  lemma DeliverMovesHead(p: Port, count: nat)
    requires Wf(p) && Sound(p.queue) && !p.nullFlag
    ensures
      var (p', out) := Deliver(p, count);
      NulFree(out) && p'.queue.headOffset == (p.queue.headOffset + |out|) % PAGE_SIZE
  {
    assert Deliver(p, count).1 == Window(p.queue, count)[..UntilNul(Window(p.queue, count))];
  }

  lemma DeliverKeepsOffPageStart(p: Port, count: nat)
    requires Wf(p) && Sound(p.queue) && PendingOk(p) && !p.nullFlag && ReadDomain(p.queue, count)
    requires p.nullLocation != -1 ==> p.queue.headOffset != 0
    ensures
      var p' := Deliver(p, count).0;
      p'.nullLocation != -1 ==> p'.queue.headOffset != 0
  {
    if p.nullLocation != -1 {
      PendingStopsRead(p, count);
    }
  }

  lemma DeliverSettled(w: World, count: nat)
    requires Good(w) && !w.port.waitFlag && Settled(w) && ReadInDomain(w.port, count)
    ensures Settled(StepDeliver(w, count))
  {
    if w.port.nullFlag {
      assert w.consumed + [] == w.consumed;
    } else {
      var (port, out) := Deliver(w.port, count);
      DeliverMovesHead(w.port, count);
      PlacedMore(w.consumed, out, w.port.queue.headOffset, port.queue.headOffset);
      DeliverKeepsOffPageStart(w.port, count);
    }
  }

  lemma SkipSettled(w: World)
    requires Good(w) && Settled(w) && w.port.nullLocation == w.port.queue.headOffset && SkipDomain(w.port.queue)
    ensures Settled(w.(port := EnterRead(w.port).0, consumed := w.consumed + [0], answers := w.answers + [0]))
  {
    OffsetMore(w.port.queue.headOffset, |w.consumed|, 1);
    assert InsidePage(0 + |w.consumed|);
  }

  lemma StepSettled(w: World, e: Event)
    requires Good(w) && Settled(w) && Enabled(w, e) && InDomain(w.port, e)
    ensures Settled(Step(w, e))
  {
    match e {
      case Edge(_) =>
      case Tasklet(_, _) =>
      case Read(count) =>
        var (port, entry) := EnterRead(w.port);
        match entry {
          case Skipped => SkipSettled(w);
          case Asleep =>
          case Ready => DeliverSettled(w.(port := port), count);
        }
      case Wake(count) => DeliverSettled(w, count);
      case Open(_) =>
      case Release =>
    }
  }

  lemma {:induction false} RunSettled(w: World, es: seq<Event>)
    requires Good(w) && Settled(w) && Possible(w, es) && Clean(w, es)
    ensures Settled(Run(w, es))
    decreases |es|
  {
    if es != [] {
      StepClean(w, es[0]);
      StepSettled(w, es[0]);
      RunSettled(Step(w, es[0]), es[1..]);
    }
  }

  // ----- everything well placed can be consumed -----

  /** A reader has the device, nothing stops it, and `rest` waits for it. */
  ghost predicate Reading(v: World, rest: seq<byte>) {
    && Good(v) && v.handles == v.port.nprocs == 1
    && !v.port.nullFlag && v.port.nullLocation == -1
    && Unread(v.port.queue) == rest && Placed(rest, v.port.queue.headOffset)
  }

  /** How a reader gets past the first separator: it reads on until that stops it, closes
      the device, opens it again, and moves past the separator. */
  function PastNul(count: nat, cs: seq<Call>): seq<Call> {
    [CallRead(count)] + ([Close] + ([CallOpen(true)] + ([CallRead(1)] + cs)))
  }

  /** How a reader gets all of `bs`. */
  function ReadCalls(bs: seq<byte>): seq<Call> {
    if bs == [] then []
    else if UntilNul(bs) == |bs| then [CallRead(|bs|)]
    else PastNul(|bs|, ReadCalls(bs[UntilNul(bs) + 1..]))
  }

  /** What is well placed is still so once it has been read past a separator, at `e`. */
  lemma PlacedBehind(rest: seq<byte>, h: nat, k: nat, e: nat)
    requires Placed(rest, h) && k < |rest| && rest[k] == 0 && e == h + k
    ensures InsidePage(e) && Placed(rest[k + 1..], e % PAGE_SIZE + 1)
  {
    assert InsidePage(h + k);
    var rest' := rest[k + 1..];
    forall j | 0 <= j < |rest'| && rest'[j] == 0
      ensures InsidePage(e % PAGE_SIZE + 1 + j)
    {
      assert InsidePage(h + (k + 1 + j));
      OffsetMore(e % PAGE_SIZE, e, 1 + j);
    }
  }

  lemma StopsAtNul(q: Queue, rest: seq<byte>, k: nat)
    requires Sound(q) && Unread(q) == rest && k == UntilNul(rest)
    ensures StopsAt(q, |rest|) == q.headOffset + k
  {
    WindowIsPrefix(q, |rest|);
    assert rest[..|rest|] == rest;
  }

  lemma NotAtStart(rest: seq<byte>, h: nat, k: nat, e: nat)
    requires Placed(rest, h) && k < |rest| && rest[k] == 0 && e == h + k
    ensures e % PAGE_SIZE != 0
  {
    assert InsidePage(h + k);
  }

  lemma AtEnd(e: nat, size: nat)
    requires size % PAGE_SIZE == 0 && e <= size < e + PAGE_SIZE
    ensures e % PAGE_SIZE != 0 || e == size
  {
  }

  lemma StopInDomain(q: Queue, rest: seq<byte>, k: nat, e: nat)
    requires Placed(rest, q.headOffset) && k <= |rest| && e == StopsAt(q, |rest|) == q.headOffset + k
    requires k < |rest| ==> rest[k] == 0
    requires k == |rest| ==> |q.mem| % PAGE_SIZE == 0 && e <= |q.mem| < e + PAGE_SIZE
    ensures ReadDomain(q, |rest|)
  {
    if k < |rest| {
      NotAtStart(rest, q.headOffset, k, e);
    } else {
      AtEnd(e, |q.mem|);
    }
  }

  lemma ReadAllInDomain(q: Queue, rest: seq<byte>, k: nat)
    requires Sound(q) && Unread(q) == rest && Placed(rest, q.headOffset) && k == UntilNul(rest)
    ensures ReadDomain(q, |rest|)
  {
    StopsAtNul(q, rest, k);
    StopInDomain(q, rest, k, StopsAt(q, |rest|));
  }

  /** A read of everything, up to the first separator: it stops at `e`. */
  lemma DeliverUpToNul(p: Port, rest: seq<byte>, k: nat) returns (e: nat)
    requires Wf(p) && Sound(p.queue) && !p.nullFlag && p.nullLocation == -1
    requires Unread(p.queue) == rest && Placed(rest, p.queue.headOffset) && k == UntilNul(rest)
    ensures ReadDomain(p.queue, |rest|)
    ensures e == p.queue.headOffset + k
    ensures
      var (p', out) := Deliver(p, |rest|);
      && out == rest[..k] && Unread(p'.queue) == rest[k..]
      && p'.queue.headOffset == e % PAGE_SIZE
      && p'.nullFlag == (k < |rest|)
      && p'.nullLocation == if k < |rest| then p'.queue.headOffset else -1
  {
    e := StopsAt(p.queue, |rest|);
    assert rest[..|rest|] == rest;
    ReadAllInDomain(p.queue, rest, k);
    StopsAtNul(p.queue, rest, k);
    DeliversUntilNul(p, |rest|);
    DeliverInDomain(p, |rest|);
  }

  lemma ReadIsReady(v: World, rest: seq<byte>, count: nat)
    requires Reading(v, rest) && rest != []
    ensures Step(v, Read(count)) == StepDeliver(v, count)
    ensures InDomain(v.port, Read(count)) == ReadDomain(v.port.queue, count)
  {
    EmptinessTestExact(v.port.queue);
  }

  lemma ReadUpToNul(v: World, rest: seq<byte>, k: nat) returns (e: nat)
    requires Reading(v, rest) && rest != [] && k == UntilNul(rest)
    ensures InDomain(v.port, Read(|rest|))
    ensures e == v.port.queue.headOffset + k
    ensures
      var v' := Step(v, Read(|rest|));
      && Good(v') && v'.handles == v'.port.nprocs == 1
      && v'.consumed == v.consumed + rest[..k] && Unread(v'.port.queue) == rest[k..] && v'.accepted == v.accepted
      && v'.port.queue.headOffset == e % PAGE_SIZE
      && v'.port.nullFlag == (k < |rest|)
      && v'.port.nullLocation == if k < |rest| then v'.port.queue.headOffset else -1
  {
    e := DeliverUpToNul(v.port, rest, k);
    ReadIsReady(v, rest, |rest|);
    StepClean(v, Read(|rest|));
  }

  /** Moving past a separator in a new session. */
  lemma SkipInNewSession(v: World, rest: seq<byte>)
    requires Good(v) && v.handles == v.port.nprocs == 1 && !v.port.nullFlag
    requires rest != [] && Unread(v.port.queue) == rest
    requires v.port.nullLocation == v.port.queue.headOffset < PAGE_SIZE - 1
    requires Placed(rest[1..], v.port.queue.headOffset + 1)
    ensures InDomain(v.port, Read(1))
    ensures
      var v' := Step(v, Read(1));
      && Reading(v', rest[1..]) && rest[0] == 0
      && v'.consumed == v.consumed + [0] && v'.accepted == v.accepted
  {
    SkipExactly(v.port);
    ReadGood(v, 1);
  }

  lemma {:induction false} CleanFirst(w: World, es: seq<Event>)
    requires Wf(w.port) && es != [] && Enabled(w, es[0]) && InDomain(w.port, es[0]) && Wf(Step(w, es[0]).port)
    requires Possible(Step(w, es[0]), es[1..]) && Clean(Step(w, es[0]), es[1..])
    ensures Possible(w, es) && Clean(w, es) && Run(w, es) == Run(Step(w, es[0]), es[1..])
  {
  }

  lemma AndSeparator(s: seq<byte>, t: seq<byte>, k: nat)
    requires k < |t| && t[k] == 0
    ensures s + t[..k] + [0] == s + t[..k + 1]
  {
  }

  lemma AndRest(s: seq<byte>, t: seq<byte>, k: nat)
    requires k <= |t|
    ensures s + t[..k] + t[k..] == s + t
    ensures k == |t| ==> s + t[..k] == s + t
  {
    assert t[..|t|] == t;
  }

  /** Closing the device and opening it again. */
  lemma Reopened(v: World) returns (u: World)
    requires Good(v) && v.handles == v.port.nprocs == 1
    ensures Enabled(v, Release) && u == Step(v, Release) && Wf(u.port) && Enabled(u, Open(true))
    ensures Step(u, Open(true)) == v.(port := v.port.(nullFlag := false), answers := v.answers + [0] + [0])
    ensures Good(Step(u, Open(true)))
  {
    u := Step(v, Release);
  }

  /** The states on the way: the read has stopped, the device is closed, open again, and
      the separator skipped; every step is in its domain. */
  datatype Passage = Passage(stopped: World, closed: World, open: World, skipped: World) {
    ghost predicate From(v: World, count: nat) {
      && Wf(v.port) && InDomain(v.port, Read(count)) && stopped == Step(v, Read(count)) && Wf(stopped.port)
      && Enabled(stopped, Release) && closed == Step(stopped, Release) && Wf(closed.port)
      && Enabled(closed, Open(true)) && open == Step(closed, Open(true)) && Wf(open.port)
      && InDomain(open.port, Read(1)) && skipped == Step(open, Read(1)) && Wf(skipped.port)
    }
  }

  lemma SkipAfterStop(v: World, rest: seq<byte>, k: nat, e: nat)
    requires Good(v) && v.handles == v.port.nprocs == 1 && !v.port.nullFlag
    requires k < |rest| && rest[k] == 0 && Unread(v.port.queue) == rest[k..]
    requires v.port.nullLocation == v.port.queue.headOffset == e % PAGE_SIZE
    requires InsidePage(e) && Placed(rest[k + 1..], e % PAGE_SIZE + 1)
    ensures InDomain(v.port, Read(1))
    ensures
      var v' := Step(v, Read(1));
      && Reading(v', rest[k + 1..])
      && v'.consumed == v.consumed + [0] && v'.accepted == v.accepted
  {
    assert rest[k..][1..] == rest[k + 1..];
    SkipInNewSession(v, rest[k..]);
  }

  lemma PassSeparator(v: World, rest: seq<byte>, k: nat) returns (p: Passage)
    requires Reading(v, rest) && k == UntilNul(rest) < |rest|
    ensures p.From(v, |rest|) && Reading(p.skipped, rest[k + 1..])
    ensures p.skipped.consumed == v.consumed + rest[..k + 1] && p.skipped.accepted == v.accepted
  {
    var e := ReadUpToNul(v, rest, k);
    var stopped := Step(v, Read(|rest|));
    var closed := Reopened(stopped);
    var open := Step(closed, Open(true));
    PlacedBehind(rest, v.port.queue.headOffset, k, e);
    SkipAfterStop(open, rest, k, e);
    p := Passage(stopped, closed, open, Step(open, Read(1)));
    AndSeparator(v.consumed, rest, k);
  }

  lemma {:induction false} FollowsReadClose(v: World, p: Passage, count: nat, cs: seq<Call>, es: seq<Event>)
    requires p.From(v, count) && Follows(v, [CallRead(count)] + ([Close] + cs), es)
    ensures |es| >= 2 && es[0] == Read(count) && es[1] == Release && Follows(p.closed, cs, es[2..])
  {
    FirstCall(v, CallRead(count), [Close] + cs, es);
    FirstCall(p.stopped, Close, cs, es[1..]);
    assert es[1..][1..] == es[2..];
  }

  lemma {:induction false} FollowsOpenSkip(v: World, p: Passage, count: nat, cs: seq<Call>, es: seq<Event>)
    requires p.From(v, count) && Follows(p.closed, [CallOpen(true)] + ([CallRead(1)] + cs), es)
    ensures |es| >= 2 && es[0] == Open(true) && es[1] == Read(1) && Follows(p.skipped, cs, es[2..])
  {
    FirstCall(p.closed, CallOpen(true), [CallRead(1)] + cs, es);
    FirstCall(p.open, CallRead(1), cs, es[1..]);
    assert es[1..][1..] == es[2..];
  }

  lemma {:induction false} FollowsPassage(v: World, p: Passage, count: nat, cs: seq<Call>, es: seq<Event>)
    requires p.From(v, count) && Follows(v, PastNul(count, cs), es)
    ensures |es| >= 4 && es[0] == Read(count) && es[1] == Release && es[2] == Open(true) && es[3] == Read(1)
    ensures Follows(p.skipped, cs, es[4..])
  {
    FollowsReadClose(v, p, count, [CallOpen(true)] + ([CallRead(1)] + cs), es);
    FollowsOpenSkip(v, p, count, cs, es[2..]);
    assert es[2..][2..] == es[4..];
  }

  lemma {:induction false} CleanPassage(v: World, p: Passage, count: nat, es: seq<Event>)
    requires p.From(v, count)
    requires |es| >= 4 && es[0] == Read(count) && es[1] == Release && es[2] == Open(true) && es[3] == Read(1)
    requires Possible(p.skipped, es[4..]) && Clean(p.skipped, es[4..])
    ensures Possible(v, es) && Clean(v, es) && Run(v, es) == Run(p.skipped, es[4..])
  {
    CleanFirst(p.open, es[3..]);
    CleanFirst(p.closed, es[2..]);
    CleanFirst(p.stopped, es[1..]);
    CleanFirst(v, es);
  }

  /** The run is clean, and gets a reader all of `rest`. */
  ghost predicate GetsAll(v: World, rest: seq<byte>, es: seq<Event>)
    requires Wf(v.port)
  {
    && Possible(v, es) && Clean(v, es)
    && Run(v, es).consumed == v.consumed + rest && Run(v, es).accepted == v.accepted
  }

  lemma GetsNothing(v: World)
    requires Wf(v.port)
    ensures GetsAll(v, [], [])
  {
    assert v.consumed + [] == v.consumed;
  }

  lemma {:induction false} GetsLast(v: World, rest: seq<byte>, es: seq<Event>)
    requires Reading(v, rest) && rest != [] && UntilNul(rest) == |rest| && Follows(v, [CallRead(|rest|)] + [], es)
    ensures GetsAll(v, rest, es)
  {
    FirstCall(v, CallRead(|rest|), [], es);
    var _ := ReadUpToNul(v, rest, |rest|);
    CleanFirst(v, es);
    AndRest(v.consumed, rest, |rest|);
  }

  lemma {:induction false} GetsMore(v: World, p: Passage, rest: seq<byte>, k: nat, es: seq<Event>)
    requires p.From(v, |rest|) && k < |rest|
    requires |es| >= 4 && es[0] == Read(|rest|) && es[1] == Release && es[2] == Open(true) && es[3] == Read(1)
    requires p.skipped.consumed == v.consumed + rest[..k + 1] && p.skipped.accepted == v.accepted
    requires GetsAll(p.skipped, rest[k + 1..], es[4..])
    ensures GetsAll(v, rest, es)
  {
    CleanPassage(v, p, |rest|, es);
    AndRest(v.consumed, rest, k + 1);
  }

  /** Whatever run follows `ReadCalls` is such a run. */
  lemma {:induction false} ReadsGetAll(v: World, rest: seq<byte>, es: seq<Event>)
    requires Reading(v, rest) && Follows(v, ReadCalls(rest), es)
    ensures GetsAll(v, rest, es)
    decreases |rest|
  {
    var k := UntilNul(rest);
    if rest == [] {
      GetsNothing(v);
    } else if k == |rest| {
      assert ReadCalls(rest) == [CallRead(|rest|)] + [];
      GetsLast(v, rest, es);
    } else {
      var cs := ReadCalls(rest[k + 1..]);
      var p := PassSeparator(v, rest, k);
      FollowsPassage(v, p, |rest|, cs, es);
      ReadsGetAll(p.skipped, rest[k + 1..], es[4..]);
      GetsMore(v, p, rest, k, es);
    }
  }

  // ----- the exact condition -----

  /** What is sent promptly can be read from the start of a page on. */
  lemma LoadedIsReading(v: World, bs: seq<byte>)
    requires Loaded(v, bs) && Placed(bs, 0)
    ensures Reading(v, bs)
  {
  }

  /** The calls that take `bs` through the whole pipeline. */
  function StreamCalls(bs: seq<byte>, beyond: seq<byte>, left: nat): seq<Call> {
    LoadCalls(bs, beyond, left) + ReadCalls(bs)
  }

  /** A clean run in which exactly `bs` has been accepted, and all of it consumed. */
  ghost predicate Passes(w: World, bs: seq<byte>, es: seq<Event>)
    requires Wf(w.port)
  {
    && Possible(w, es) && Clean(w, es)
    && Run(w, es).accepted == Run(w, es).consumed == bs
  }

  /** Whatever run follows these calls takes well-placed bytes through, and readers are
      given them without their separators. */
  lemma StreamPasses(w: World, bs: seq<byte>, beyond: seq<byte>, left: nat, es: seq<Event>)
    requires Boot(w) && Placed(bs, 0) && |beyond| == BUF_SIZE && left > 0
    requires Follows(w, StreamCalls(bs, beyond, left), es)
    ensures Passes(w, bs, es) && Run(w, es).delivered == NonNul(bs)
  {
    BootGood(w);
    var first, second := SplitRun(w, LoadCalls(bs, beyond, left), ReadCalls(bs), es);
    LoadIsLoaded(w, bs, beyond, left, first);
    PromptRunIsClean(w, first);
    var v := Run(w, first);
    LoadedIsReading(v, bs);
    ReadsGetAll(v, bs, second);
    RunAppend(w, first, second);
    CleanAppend(w, first, second);
    RunIsFifo(w, es);
    assert [] + bs == bs;
  }

  lemma NothingLeft(w: World, bs: seq<byte>, es: seq<Event>)
    requires Boot(w) && Passes(w, bs, es)
    ensures Unread(Run(w, es).port.queue) == []
  {
    BootGood(w);
    RunIsFifo(w, es);
    var v := Run(w, es);
    assert |v.accepted| == |v.consumed| + |Unread(v.port.queue)| + |Live(v.port.ring)|;
  }

  /** The byte sequences that some clean run takes from end to end are exactly those in
      which no separator is the first or the last byte of a page. */
  lemma StreamsExactly(w: World, bs: seq<byte>)
    requires Boot(w)
    ensures (exists es :: Passes(w, bs, es)) <==> Placed(bs, 0)
  {
    BootGood(w);
    forall es | Passes(w, bs, es)
      ensures Placed(bs, 0)
    {
      RunSettled(w, es);
    }
    if Placed(bs, 0) {
      var es := SomeRun(w, StreamCalls(bs, BLANK, 1));
      StreamPasses(w, bs, BLANK, 1, es);
    }
  }
}
