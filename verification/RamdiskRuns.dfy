/** Whole runs of the ramdisk: any number of handles opening, reading, writing,
    seeking and storing through mappings, in any order, with any allocation
    failures. What a read returns is compared with a log of the run alone. */
module RamdiskRuns {
  import opened Bytes
  import opened Pages
  import opened RamdiskSpec

  datatype Event =
    | Open(fd: nat, writeOnly: bool)
    | Release(fd: nat)
    | Read(fd: nat, count: nat)
    | Write(fd: nat, data: seq<byte>, grown: seq<byte>)
    | Seek(fd: nat, offset: int, whence: Whence)
    | Store(at: nat, b: byte)
    | Map(pgoff: nat, len: nat)
    | Ioctl(iocType: char, nr: int, newNprocs: int)

  /** What the log remembers of an event. */
  datatype Effect =
    | Truncated
    | Wrote(pos: nat, data: seq<byte>)
    | Stored(at: nat, b: byte)

  /** What a caller is told. */
  datatype Reply = Result(r: int) | Data(bytes: seq<byte>)

  /** `fds` are the open handles with their positions; `peak` is the largest process limit
      that was ever in force. */
  datatype World = World(disk: Disk, fds: map<nat, nat>, log: seq<Effect>, replies: seq<Reply>, peak: int)

  const BOOT := World(FRESH_DISK, map[], [], [], FRESH_DISK.maxNprocs)

  /** What the kernel guarantees about an event before it reaches the driver. */
  ghost predicate Enabled(w: World, e: Event) {
    match e
    case Open(fd, _) => fd !in w.fds
    case Release(fd) => fd in w.fds
    case Read(fd, _) => fd in w.fds
    case Write(fd, data, grown) => fd in w.fds && Growth(|w.disk.mem|, w.fds[fd] + |data|, grown)
    case Seek(fd, _, _) => fd in w.fds
    case Store(at, _) => at < |w.disk.mem|
    case Map(_, _) => true
    case Ioctl(_, _, _) => true
  }

  /** `w` after a call that is answered by `reply`. */
  ghost function Replied(w: World, reply: Reply): World {
    w.(replies := w.replies + [reply])
  }

  ghost function StepOpen(w: World, fd: nat, writeOnly: bool): World {
    var (disk, r) := DoOpen(w.disk, writeOnly);
    if r != 0 then Replied(w, Result(r))
    else Replied(w.(disk := disk, fds := w.fds[fd := 0], log := if writeOnly then w.log + [Truncated] else w.log),
                 Result(r))
  }

  ghost function StepWrite(w: World, fd: nat, data: seq<byte>, grown: seq<byte>): World
    requires DiskOk(w.disk) && fd in w.fds
  {
    var (disk, r) := WriteAt(w.disk, w.fds[fd], data, grown);
    if r < 0 then Replied(w.(disk := disk), Result(r))
    else Replied(w.(disk := disk, fds := w.fds[fd := w.fds[fd] + r], log := w.log + [Wrote(w.fds[fd], data)]),
                 Result(r))
  }

  ghost function Step(w: World, e: Event): World
    requires DiskOk(w.disk) && Enabled(w, e)
  {
    match e
    case Open(fd, writeOnly) => StepOpen(w, fd, writeOnly)
    case Release(fd) =>
      Replied(w.(disk := w.disk.(nprocs := w.disk.nprocs - 1), fds := w.fds - {fd}), Result(0))
    case Read(fd, count) =>
      var out := ReadAt(w.disk, w.fds[fd], count);
      Replied(w.(fds := w.fds[fd := w.fds[fd] + |out|]), Data(out))
    case Write(fd, data, grown) => StepWrite(w, fd, data, grown)
    case Seek(fd, offset, whence) =>
      var pos := SeekTo(w.fds[fd], |w.disk.mem|, offset, whence);
      Replied(w.(fds := w.fds[fd := pos]), Result(pos))
    case Store(at, b) =>
      w.(disk := StoreAt(w.disk, at, b), log := w.log + [Stored(at, b)])
    case Map(pgoff, len) => Replied(w, Result(DoMmap(w.disk, pgoff, len)))
    case Ioctl(iocType, nr, newNprocs) =>
      var (disk, r) := DoIoctl(w.disk, iocType, nr, newNprocs);
      Replied(w.(disk := disk, peak := Max(w.peak, disk.maxNprocs)), Result(r))
  }

  lemma StepOk(w: World, e: Event)
    requires DiskOk(w.disk) && Enabled(w, e)
    ensures DiskOk(Step(w, e).disk)
  {
  }

  /** The events `es` can happen one after the other from `w`. */
  ghost predicate Possible(w: World, es: seq<Event>)
    requires DiskOk(w.disk)
    decreases |es|
  {
    es == [] || (Enabled(w, es[0]) && (StepOk(w, es[0]); Possible(Step(w, es[0]), es[1..])))
  }

  ghost function Run(w: World, es: seq<Event>): (w': World)
    requires DiskOk(w.disk) && Possible(w, es)
    ensures DiskOk(w'.disk)
    decreases |es|
  {
    if es == [] then w
    else
      StepOk(w, es[0]);
      Run(Step(w, es[0]), es[1..])
  }

  // ----- an account of a run that knows nothing of pages -----

  /** The byte last put at position `p` since the disk was last emptied. */
  function LatestAt(log: seq<Effect>, p: nat): (b: seq<byte>)
    ensures |b| <= 1
  {
    if log == [] then []
    else
      var rest := log[..|log| - 1];
      match log[|log| - 1]
      case Truncated => []
      case Wrote(pos, data) => if pos <= p < pos + |data| then [data[p - pos]] else LatestAt(rest, p)
      case Stored(at, b) => if p == at then [b] else LatestAt(rest, p)
  }

  /** The furthest end of a write since the disk was last emptied. */
  function Extent(log: seq<Effect>): nat {
    if log == [] then 0
    else
      var rest := log[..|log| - 1];
      match log[|log| - 1]
      case Truncated => 0
      case Wrote(pos, data) => Max(Extent(rest), pos + |data|)
      case Stored(_, _) => Extent(rest)
  }

  ghost predicate Agrees(d: Disk, log: seq<Effect>, p: nat) {
    LatestAt(log, p) != [] ==> p < |d.mem| && [d.mem[p]] == LatestAt(log, p)
  }

  ghost predicate Consistent(w: World) {
    && DiskOk(w.disk)
    && w.disk.dataSize == Extent(w.log)
    && forall p: nat :: Agrees(w.disk, w.log, p)
  }

  lemma WriteAgrees(d: Disk, log: seq<Effect>, pos: nat, data: seq<byte>, grown: seq<byte>, p: nat)
    requires Agrees(d, log, p) && Grew(|d.mem|, pos + |data|, grown)
    ensures Agrees(WriteAt(d, pos, data, grown).0, log + [Wrote(pos, data)], p)
  {
    var log' := log + [Wrote(pos, data)];
    assert log'[..|log'| - 1] == log;
    var mem' := WriteAt(d, pos, data, grown).0.mem;
    if pos <= p < pos + |data| {
      assert mem'[p] == data[p - pos];
    } else if p < |d.mem| {
      assert mem'[p] == d.mem[p];
    }
  }

  lemma StoreAgrees(d: Disk, log: seq<Effect>, at: nat, b: byte, p: nat)
    requires Agrees(d, log, p) && at < |d.mem|
    ensures Agrees(StoreAt(d, at, b), log + [Stored(at, b)], p)
  {
    var log' := log + [Stored(at, b)];
    assert log'[..|log'| - 1] == log;
  }

  lemma StepAgrees(w: World, e: Event, p: nat)
    requires DiskOk(w.disk) && Enabled(w, e) && Agrees(w.disk, w.log, p)
    ensures Agrees(Step(w, e).disk, Step(w, e).log, p)
  {
    match e {
      case Open(_, _) =>
      case Write(fd, data, grown) =>
        if Grew(|w.disk.mem|, w.fds[fd] + |data|, grown) {
          WriteAgrees(w.disk, w.log, w.fds[fd], data, grown, p);
        }
      case Store(at, b) => StoreAgrees(w.disk, w.log, at, b, p);
      case Release(_) =>
      case Read(_, _) =>
      case Seek(_, _, _) =>
      case Map(_, _) =>
      case Ioctl(_, _, _) =>
    }
  }

  lemma ExtentMore(log: seq<Effect>, effect: Effect)
    ensures Extent(log + [effect]) ==
      match effect
      case Truncated => 0
      case Wrote(pos, data) => Max(Extent(log), pos + |data|)
      case Stored(_, _) => Extent(log)
  {
    var log' := log + [effect];
    assert log'[..|log'| - 1] == log;
  }

  lemma WriteExtent(w: World, fd: nat, data: seq<byte>, grown: seq<byte>)
    requires DiskOk(w.disk) && fd in w.fds && w.disk.dataSize == Extent(w.log)
    ensures StepWrite(w, fd, data, grown).disk.dataSize == Extent(StepWrite(w, fd, data, grown).log)
  {
    ExtentMore(w.log, Wrote(w.fds[fd], data));
  }

  lemma StepExtent(w: World, e: Event)
    requires DiskOk(w.disk) && Enabled(w, e) && w.disk.dataSize == Extent(w.log)
    ensures Step(w, e).disk.dataSize == Extent(Step(w, e).log)
  {
    match e {
      case Open(_, _) => ExtentMore(w.log, Truncated);
      case Write(fd, data, grown) => WriteExtent(w, fd, data, grown);
      case Store(at, b) => ExtentMore(w.log, Stored(at, b));
      case Release(_) =>
      case Read(_, _) =>
      case Seek(_, _, _) =>
      case Map(_, _) =>
      case Ioctl(_, _, _) =>
    }
  }

  lemma StepConsistent(w: World, e: Event)
    requires Consistent(w) && Enabled(w, e)
    ensures Consistent(Step(w, e))
  {
    StepOk(w, e);
    StepExtent(w, e);
    forall p: nat
      ensures Agrees(Step(w, e).disk, Step(w, e).log, p)
    {
      assert Agrees(w.disk, w.log, p);
      StepAgrees(w, e, p);
    }
  }

  lemma {:induction false} RunConsistent(w: World, es: seq<Event>)
    requires Consistent(w) && Possible(w, es)
    ensures Consistent(Run(w, es))
    decreases |es|
  {
    if es != [] {
      StepConsistent(w, es[0]);
      RunConsistent(Step(w, es[0]), es[1..]);
    }
  }

  /** Last writer wins: after any run, a read returns as many bytes as the writes of
      the run account for, and wherever the run put a byte it returns the latest. */
  lemma LastWriterWins(es: seq<Event>, pos: nat, count: nat)
    requires Possible(BOOT, es)
    ensures
      var w := Run(BOOT, es);
      var out := ReadAt(w.disk, pos, count);
      && |out| == Max(0, Min(count, Extent(w.log) - pos))
      && forall i | 0 <= i < |out| && LatestAt(w.log, pos + i) != [] :: [out[i]] == LatestAt(w.log, pos + i)
  {
    RunConsistent(BOOT, es);
    var w := Run(BOOT, es);
    var out := ReadAt(w.disk, pos, count);
    forall i | 0 <= i < |out| && LatestAt(w.log, pos + i) != []
      ensures [out[i]] == LatestAt(w.log, pos + i)
    {
      assert Agrees(w.disk, w.log, pos + i);
    }
  }

  // ----- process counts -----

  /** The process count is the number of open handles, and never exceeds the largest
      limit that was ever in force. */
  ghost predicate Counted(w: World) {
    && w.disk.nprocs == |w.fds|
    && w.disk.nprocs <= w.peak
    && w.disk.maxNprocs <= w.peak
  }

  lemma UpdateSize(fds: map<nat, nat>, fd: nat, pos: nat)
    ensures |fds[fd := pos]| == if fd in fds then |fds| else |fds| + 1
  {
    assert fds[fd := pos].Keys == fds.Keys + {fd};
  }

  lemma RemoveSize(fds: map<nat, nat>, fd: nat)
    requires fd in fds
    ensures |fds - {fd}| == |fds| - 1
  {
    assert fds.Keys == (fds - {fd}).Keys + {fd};
  }

  lemma StepCounted(w: World, e: Event)
    requires DiskOk(w.disk) && Counted(w) && Enabled(w, e)
    ensures Counted(Step(w, e))
  {
    if e.Release? {
      RemoveSize(w.fds, e.fd);
    } else if e.Open? || e.Read? || e.Write? || e.Seek? {
      var fds := Step(w, e).fds;
      if e.fd in fds {
        UpdateSize(w.fds, e.fd, fds[e.fd]);
      }
    }
  }

  lemma {:induction false} RunCounted(w: World, es: seq<Event>)
    requires DiskOk(w.disk) && Counted(w) && Possible(w, es)
    ensures Counted(Run(w, es))
    decreases |es|
  {
    if es != [] {
      StepOk(w, es[0]);
      StepCounted(w, es[0]);
      RunCounted(Step(w, es[0]), es[1..]);
    }
  }

  /** An open below the limit succeeds: the handle starts at position 0 and is counted, and
      the disk is emptied if it is for writing only. One at the limit is answered -16 and
      changes nothing. */
  lemma OpenAnsweredExactly(w: World, fd: nat, writeOnly: bool)
    requires DiskOk(w.disk) && Counted(w) && Enabled(w, Open(fd, writeOnly))
    ensures
      var w' := Step(w, Open(fd, writeOnly));
      if |w.fds| < w.disk.maxNprocs then
        && w'.replies == w.replies + [Result(0)]
        && w'.fds == w.fds[fd := 0] && w'.disk.nprocs == |w.fds| + 1 && w'.disk.maxNprocs == w.disk.maxNprocs
        && w'.disk.mem == (if writeOnly then [] else w.disk.mem)
        && w'.disk.dataSize == (if writeOnly then 0 else w.disk.dataSize)
      else
        w' == w.(replies := w.replies + [Result(-16)])
  {
  }

  /** A close gives the handle back, and changes nothing else. */
  lemma CloseAnsweredExactly(w: World, fd: nat)
    requires DiskOk(w.disk) && Counted(w) && Enabled(w, Release(fd))
    ensures Step(w, Release(fd)) ==
      w.(fds := w.fds - {fd}, disk := w.disk.(nprocs := |w.fds - {fd}|), replies := w.replies + [Result(0)])
  {
    RemoveSize(w.fds, fd);
  }

  /** The ioctls that set the limit. */
  predicate SetsLimit(e: Event) {
    e.Ioctl? && e.iocType == 'k' && e.nr == 1 && e.newNprocs > 0
  }

  /** They are answered 0 and set it; any other ioctl is answered by an error, and changes
      nothing. */
  lemma IoctlAnsweredExactly(w: World, e: Event)
    requires DiskOk(w.disk) && e.Ioctl?
    ensures
      var w' := Step(w, e);
      if SetsLimit(e) then
        w'.replies == w.replies + [Result(0)] && w'.disk == w.disk.(maxNprocs := e.newNprocs)
      else
        && w'.replies == w.replies + [Result(if e.iocType == 'k' && e.nr != 1 then -25 else -22)]
        && w'.disk == w.disk
  {
  }

  /** The limit after `es`: the value of the last ioctl that set it, or the one before. */
  function LimitAfter(limit: int, es: seq<Event>): int
    decreases |es|
  {
    if es == [] then limit
    else LimitAfter(if SetsLimit(es[0]) then es[0].newNprocs else limit, es[1..])
  }

  lemma {:induction false} LimitUnset(limit: int, es: seq<Event>)
    requires forall e | e in es :: !SetsLimit(e)
    ensures LimitAfter(limit, es) == limit
  {
    if es != [] {
      LimitUnset(limit, es[1..]);
    }
  }

  lemma {:induction false} RunLimit(w: World, es: seq<Event>)
    requires DiskOk(w.disk) && Possible(w, es)
    ensures Run(w, es).disk.maxNprocs == LimitAfter(w.disk.maxNprocs, es)
    ensures w.disk.maxNprocs >= 1 ==> Run(w, es).disk.maxNprocs >= 1
    decreases |es|
  {
    if es != [] {
      StepOk(w, es[0]);
      RunLimit(Step(w, es[0]), es[1..]);
    }
  }

  /** Over every run from the start the limit is at least 1, and is the value last set. */
  lemma LimitIsLastSet(es: seq<Event>)
    requires Possible(BOOT, es)
    ensures Run(BOOT, es).disk.maxNprocs == LimitAfter(1, es) >= 1
  {
    RunLimit(BOOT, es);
  }

  /** So whenever nobody has the disk anybody can open it; and as long as no ioctl has set
      the limit, nobody else can. */
  lemma OpensExactly(es: seq<Event>, fd: nat, writeOnly: bool)
    requires Possible(BOOT, es) && fd !in Run(BOOT, es).fds
    ensures
      var w := Run(BOOT, es);
      var w' := Step(w, Open(fd, writeOnly));
      && (w.fds == map[] ==> w'.replies == w.replies + [Result(0)] && w'.fds == map[fd := 0])
      && ((forall e | e in es :: !SetsLimit(e)) && w.fds != map[] ==>
            w' == w.(replies := w.replies + [Result(-16)]))
  {
    var w := Run(BOOT, es);
    RunCounted(BOOT, es);
    LimitIsLastSet(es);
    OpenAnsweredExactly(w, fd, writeOnly);
    if forall e | e in es :: !SetsLimit(e) {
      LimitUnset(1, es);
    }
    assert w.fds != map[] ==> |w.fds| >= 1;
  }

  // ----- positions -----

  /** Every handle's position lies within the pages of the disk. */
  ghost predicate Bounded(w: World) {
    forall fd | fd in w.fds :: w.fds[fd] <= |w.disk.mem|
  }

  /** An open that empties the disk under a handle that is not at its start. */
  ghost predicate CutsOff(w: World, e: Event) {
    && e.Open? && e.writeOnly
    && w.disk.nprocs < w.disk.maxNprocs
    && exists fd :: fd in w.fds && w.fds[fd] > 0
  }

  /** Exactly such opens leave a position beyond the disk. */
  lemma BoundedExactly(w: World, e: Event)
    requires DiskOk(w.disk) && Enabled(w, e) && Bounded(w)
    ensures Bounded(Step(w, e)) <==> !CutsOff(w, e)
  {
    if CutsOff(w, e) {
      var fd :| fd in w.fds && w.fds[fd] > 0;
      assert fd in Step(w, e).fds;
    }
  }

  /** After every step of the run all positions lie within the disk. */
  ghost predicate StaysBounded(w: World, es: seq<Event>)
    requires DiskOk(w.disk) && Possible(w, es)
    decreases |es|
  {
    Bounded(w) && (es == [] || (StepOk(w, es[0]); StaysBounded(Step(w, es[0]), es[1..])))
  }

  ghost predicate NeverCutsOff(w: World, es: seq<Event>)
    requires DiskOk(w.disk) && Possible(w, es)
    decreases |es|
  {
    es == [] || (!CutsOff(w, es[0]) && (StepOk(w, es[0]); NeverCutsOff(Step(w, es[0]), es[1..])))
  }

  /** All positions stay within the disk all through a run exactly if the run never
      empties the disk under a handle that is not at its start. */
  lemma {:induction false} RunBoundedExactly(w: World, es: seq<Event>)
    requires DiskOk(w.disk) && Bounded(w) && Possible(w, es)
    ensures StaysBounded(w, es) <==> NeverCutsOff(w, es)
    decreases |es|
  {
    if es != [] {
      StepOk(w, es[0]);
      BoundedExactly(w, es[0]);
      if Bounded(Step(w, es[0])) {
        RunBoundedExactly(Step(w, es[0]), es[1..]);
      }
    }
  }

  /** At no time is there more than one handle. */
  ghost predicate SingleHandle(w: World, es: seq<Event>)
    requires DiskOk(w.disk) && Possible(w, es)
    decreases |es|
  {
    |w.fds| <= 1 && (es == [] || (StepOk(w, es[0]); SingleHandle(Step(w, es[0]), es[1..])))
  }

  lemma SingleNeverCutsOff(w: World, e: Event)
    requires DiskOk(w.disk) && Enabled(w, e) && |Step(w, e).fds| <= 1
    ensures !CutsOff(w, e)
  {
    if e.Open? {
      UpdateSize(w.fds, e.fd, 0);
      assert |w.fds| == 0 ==> w.fds == map[];
    }
  }

  /** One handle at a time never finds its position beyond the disk, whatever the limit. */
  lemma {:induction false} SingleHandleBounded(w: World, es: seq<Event>)
    requires DiskOk(w.disk) && Bounded(w) && Possible(w, es) && SingleHandle(w, es)
    ensures StaysBounded(w, es)
    decreases |es|
  {
    if es != [] {
      StepOk(w, es[0]);
      SingleNeverCutsOff(w, es[0]);
      BoundedExactly(w, es[0]);
      SingleHandleBounded(Step(w, es[0]), es[1..]);
    }
  }

  lemma {:induction false} PeakGrows(w: World, es: seq<Event>)
    requires DiskOk(w.disk) && Possible(w, es)
    ensures w.peak <= Run(w, es).peak
    decreases |es|
  {
    if es != [] {
      StepOk(w, es[0]);
      PeakGrows(Step(w, es[0]), es[1..]);
    }
  }

  /** As long as the process limit is left at its initial 1, there is one handle at most. */
  lemma {:induction false} LimitOneIsSingleHandle(w: World, es: seq<Event>)
    requires DiskOk(w.disk) && Counted(w) && Possible(w, es) && Run(w, es).peak <= 1
    ensures SingleHandle(w, es)
    decreases |es|
  {
    PeakGrows(w, es);
    if es != [] {
      StepOk(w, es[0]);
      StepCounted(w, es[0]);
      LimitOneIsSingleHandle(Step(w, es[0]), es[1..]);
    }
  }

  // ----- going back -----

  /** Going back by what was read and reading again gives the same bytes. */
  lemma ReadAgain(w: World, fd: nat, count: nat)
    requires DiskOk(w.disk) && fd in w.fds && w.fds[fd] <= |w.disk.mem|
    ensures
      var out := ReadAt(w.disk, w.fds[fd], count);
      var w1 := Step(w, Read(fd, count));
      var w2 := Step(w1, Seek(fd, -|out|, SeekCur));
      && w2.fds == w.fds
      && Step(w2, Read(fd, count)).replies == w.replies + [Data(out)] + [Result(w.fds[fd])] + [Data(out)]
  {
    var out := ReadAt(w.disk, w.fds[fd], count);
    SeekExactly(w.fds[fd] + |out|, |w.disk.mem|, -|out|);
  }

  /** Going back by what was written and reading gives it back. */
  lemma WriteReadBack(w: World, fd: nat, data: seq<byte>, grown: seq<byte>)
    requires DiskOk(w.disk) && Enabled(w, Write(fd, data, grown))
    requires Grew(|w.disk.mem|, w.fds[fd] + |data|, grown)
    ensures
      var w1 := Step(w, Write(fd, data, grown));
      && DiskOk(w1.disk) && Enabled(w1, Seek(fd, -|data|, SeekCur))
      && var w2 := Step(w1, Seek(fd, -|data|, SeekCur));
      && w2.fds == w.fds
      && Step(w2, Read(fd, |data|)).replies ==
         w.replies + [Result(|data|)] + [Result(w.fds[fd])] + [Data(data)]
  {
    var pos, w1 := w.fds[fd], Step(w, Write(fd, data, grown));
    StepOk(w, Write(fd, data, grown));
    SeekExactly(pos + |data|, |w1.disk.mem|, -|data|);
    ReadAfterWrite(w.disk, pos, data, grown, pos, |data|);
    assert ReadAt(w1.disk, pos, |data|) == data;
  }

  /** What a mapping request is answered. */
  lemma MapAnsweredExactly(w: World, pgoff: nat, len: nat)
    requires DiskOk(w.disk)
    ensures
      var pages := |w.disk.mem| / PAGE_SIZE;
      var ok := len <= |w.disk.mem| && pgoff * PAGE_SIZE <= pages;
      Step(w, Map(pgoff, len)) == w.(replies := w.replies + [Result(if ok then 0 else -22)])
  {
    assert |w.disk.mem| / PAGE_SIZE * PAGE_SIZE == |w.disk.mem|;
  }
}
