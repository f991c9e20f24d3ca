/** The ramdisk in place and the runs of `RamdiskRuns` are the same thing: whatever
    sequence of calls processes make, on whatever handles, executing it on the device is a
    run, and what callers are told is what the run says. */
module RamdiskDispatch {
  import opened Bytes
  import opened Pages
  import opened RamdiskSpec
  import opened RamdiskRuns
  import opened Ramdisk

  /** `left` is how many pages the machine has to give when the call is made. */
  datatype Call =
    | CallOpen(fd: nat, writeOnly: bool)
    | Close(fd: nat)
    | CallRead(fd: nat, count: nat)
    | CallWrite(fd: nat, data: seq<byte>, left: nat)
    | CallSeek(fd: nat, offset: int, whence: Whence)
    | StoreThroughMapping(at: nat, b: byte)
    | CallMap(pgoff: nat, len: nat)
    | CallIoctl(iocType: char, nr: int, newNprocs: int)

  /** The kernel hands out handles that are not in use, and only those in use can be used;
      a mapping of the disk goes no further than the disk. */
  ghost predicate Callable(w: World, c: Call) {
    match c
    case CallOpen(fd, _) => fd !in w.fds
    case StoreThroughMapping(at, _) => at < |w.disk.mem|
    case CallMap(_, _) => true
    case CallIoctl(_, _, _) => true
    case _ => c.fd in w.fds
  }

  /** `e` is the call as an event of a run, for some content of the pages handed out. */
  ghost predicate IsEvent(w: World, c: Call, e: Event)
    requires Callable(w, c)
  {
    match c
    case CallOpen(fd, writeOnly) => e == Open(fd, writeOnly)
    case Close(fd) => e == Release(fd)
    case CallRead(fd, count) => e == RamdiskRuns.Read(fd, count)
    case CallWrite(fd, data, left) =>
      e.Write? && e.fd == fd && e.data == data && Allotted(|w.disk.mem|, w.fds[fd] + |data|, left, e.grown)
    case CallSeek(fd, offset, whence) => e == Seek(fd, offset, whence)
    case StoreThroughMapping(at, b) => e == Store(at, b)
    case CallMap(pgoff, len) => e == Map(pgoff, len)
    case CallIoctl(iocType, nr, newNprocs) => e == RamdiskRuns.Ioctl(iocType, nr, newNprocs)
  }

  /** A write succeeds exactly if the pages held and those to be had are enough for it. */
  lemma WriteReplyExactly(w: World, fd: nat, data: seq<byte>, left: nat, e: Event)
    requires DiskOk(w.disk) && Callable(w, CallWrite(fd, data, left)) && IsEvent(w, CallWrite(fd, data, left), e)
    ensures Enabled(w, e)
    ensures
      var fits := w.fds[fd] + |data| <= |w.disk.mem| + left * PAGE_SIZE;
      Step(w, e).replies == w.replies + [Result(if fits then |data| else -12)]
  {
    AllottedEnough(|w.disk.mem|, w.fds[fd] + |data|, left, e.grown);
  }

  /** The kernel's table of open files holds the positions of the run. */
  ghost predicate Linked(w: World, files: map<nat, OpenFile>)
    reads files.Values
  {
    && files.Keys == w.fds.Keys
    && (forall fd | fd in files :: files[fd].fPos == w.fds[fd])
    && (forall fd, fd' | fd in files && fd' in files && fd != fd' :: files[fd] != files[fd'])
  }

  /** The device and the open files are as in `w`. */
  ghost predicate InState(w: World, dev: Device, files: map<nat, OpenFile>)
    reads dev, dev.memList, files.Values
  {
    dev.Valid() && dev.View() == w.disk && Linked(w, files)
  }

  /** `es` are the events of those of the `calls` that can be made. */
  ghost predicate Follows(w: World, calls: seq<Call>, es: seq<Event>)
    requires DiskOk(w.disk)
    decreases |calls|
  {
    if calls == [] then es == []
    else if Callable(w, calls[0]) then
      && es != [] && IsEvent(w, calls[0], es[0]) && Enabled(w, es[0])
      && (StepOk(w, es[0]); Follows(Step(w, es[0]), calls[1..], es[1..]))
    else Follows(w, calls[1..], es)
  }

  /** Executing `calls` from `w` on has been the run `es`, and has given `replies`. */
  ghost predicate Executed(w: World, calls: seq<Call>, es: seq<Event>, replies: seq<Reply>)
    requires DiskOk(w.disk)
  {
    && Follows(w, calls, es) && Possible(w, es)
    && Run(w, es).replies == w.replies + replies
  }

  lemma ExecutedMore(w: World, calls: seq<Call>, e: Event, replies: seq<Reply>, es: seq<Event>, more: seq<Reply>)
    requires DiskOk(w.disk) && calls != [] && Callable(w, calls[0]) && IsEvent(w, calls[0], e) && Enabled(w, e)
    requires Step(w, e).replies == w.replies + replies && DiskOk(Step(w, e).disk)
    requires Executed(Step(w, e), calls[1..], es, more)
    ensures Executed(w, calls, [e] + es, replies + more)
    ensures Run(w, [e] + es) == Run(Step(w, e), es)
  {
    assert ([e] + es)[1..] == es;
    assert w.replies + (replies + more) == w.replies + replies + more;
  }

  /** Page ownership: pages are only ever added and freed, and no page comes from elsewhere. */
  twostate predicate OwnsPages(dev: Device)
    reads dev
  {
    && (forall k | 0 <= k < |dev.memList| :: dev.memList[k] in old(dev.memList) || fresh(dev.memList[k]))
    && old(dev.listed) <= dev.listed && old(dev.freed) <= dev.freed
  }

  method DispatchOpen(dev: Device, files: map<nat, OpenFile>, fd: nat, writeOnly: bool, ghost w: World)
    returns (newFiles: map<nat, OpenFile>, replies: seq<Reply>)
    requires InState(w, dev, files) && Callable(w, CallOpen(fd, writeOnly))
    modifies dev
    ensures OwnsPages(dev)
    ensures forall fd | fd in newFiles :: newFiles[fd] in files.Values || fresh(newFiles[fd])
    ensures InState(Step(w, Open(fd, writeOnly)), dev, newFiles)
    ensures Step(w, Open(fd, writeOnly)).replies == w.replies + replies
  {
    var r := dev.Open(writeOnly);
    newFiles, replies := files, [Result(r)];
    if r == 0 {
      var file := new OpenFile();
      newFiles := files[fd := file];
    }
  }

  method DispatchRead(dev: Device, files: map<nat, OpenFile>, fd: nat, count: nat, ghost w: World)
    returns (replies: seq<Reply>)
    requires InState(w, dev, files) && Callable(w, CallRead(fd, count))
    modifies files.Values
    ensures InState(Step(w, RamdiskRuns.Read(fd, count)), dev, files)
    ensures Step(w, RamdiskRuns.Read(fd, count)).replies == w.replies + replies
  {
    assert fd in files;
    var ubuf := new byte[count];
    ghost var before := ubuf[..];
    var n := dev.Read(files[fd], ubuf, 0, count);
    replies := [Data(ubuf[..n])];
    assert ubuf[..n] == ReadAt(w.disk, w.fds[fd], count);
  }

  method DispatchWrite(dev: Device, files: map<nat, OpenFile>, fd: nat, data: seq<byte>, left: nat, ghost w: World)
    returns (replies: seq<Reply>, ghost e: Event)
    requires InState(w, dev, files) && Callable(w, CallWrite(fd, data, left))
    modifies dev, dev.memList, files.Values
    ensures OwnsPages(dev)
    ensures IsEvent(w, CallWrite(fd, data, left), e) && Enabled(w, e)
    ensures InState(Step(w, e), dev, files)
    ensures Step(w, e).replies == w.replies + replies
  {
    assert fd in files;
    var r;
    ghost var grown;
    var alloc := new Allocator(left);
    r, grown := dev.Write(files[fd], data, alloc);
    replies := [Result(r)];
    e := RamdiskRuns.Write(fd, data, grown);
  }

  method DispatchSeek(dev: Device, files: map<nat, OpenFile>, fd: nat, offset: int, whence: Whence, ghost w: World)
    returns (replies: seq<Reply>)
    requires InState(w, dev, files) && Callable(w, CallSeek(fd, offset, whence))
    modifies files.Values
    ensures InState(Step(w, Seek(fd, offset, whence)), dev, files)
    ensures Step(w, Seek(fd, offset, whence)).replies == w.replies + replies
  {
    assert fd in files;
    var pos := dev.Lseek(files[fd], offset, whence);
    replies := [Result(pos)];
  }

  /** A process maps the whole disk and stores a byte through the mapping. */
  method DispatchStore(dev: Device, files: map<nat, OpenFile>, at: nat, b: byte, ghost w: World)
    requires InState(w, dev, files) && Callable(w, StoreThroughMapping(at, b))
    modifies dev.memList
    ensures InState(Step(w, Store(at, b)), dev, files)
  {
    var len := dev.numPages * PAGE_SIZE;
    var r, mapping := dev.Mmap(0, len);
    assert dev.Maps(mapping, len);
    dev.LoadAgreesWithRead(mapping, len, at);
    assert at / PAGE_SIZE * PAGE_SIZE < len;
    dev.StoreMapped(mapping, len, at, b);
  }

  /** Executes a call that can be made. */
  method Dispatch(dev: Device, files: map<nat, OpenFile>, c: Call, ghost w: World)
    returns (newFiles: map<nat, OpenFile>, replies: seq<Reply>, ghost e: Event)
    requires InState(w, dev, files) && Callable(w, c)
    modifies dev, dev.memList, files.Values
    ensures OwnsPages(dev)
    ensures forall fd | fd in newFiles :: newFiles[fd] in files.Values || fresh(newFiles[fd])
    ensures IsEvent(w, c, e) && Enabled(w, e)
    ensures InState(Step(w, e), dev, newFiles)
    ensures Step(w, e).replies == w.replies + replies
  {
    newFiles, replies := files, [];
    match c {
      case CallOpen(fd, writeOnly) =>
        newFiles, replies := DispatchOpen(dev, files, fd, writeOnly, w);
        e := Open(fd, writeOnly);
      case Close(fd) =>
        var r := dev.Release();
        newFiles, replies := files - {fd}, [Result(r)];
        e := Release(fd);
      case CallRead(fd, count) =>
        replies := DispatchRead(dev, files, fd, count, w);
        e := RamdiskRuns.Read(fd, count);
      case CallWrite(fd, data, left) =>
        replies, e := DispatchWrite(dev, files, fd, data, left, w);
      case CallSeek(fd, offset, whence) =>
        replies := DispatchSeek(dev, files, fd, offset, whence, w);
        e := Seek(fd, offset, whence);
      case StoreThroughMapping(at, b) =>
        DispatchStore(dev, files, at, b, w);
        e := Store(at, b);
      case CallMap(pgoff, len) =>
        var r, _ := dev.Mmap(pgoff, len);
        replies := [Result(r)];
        e := Map(pgoff, len);
      case CallIoctl(iocType, nr, newNprocs) =>
        var r := dev.Ioctl(iocType, nr, newNprocs);
        replies := [Result(r)];
        e := RamdiskRuns.Ioctl(iocType, nr, newNprocs);
    }
  }

  /** Whether a call can be made. */
  predicate CanCall(dev: Device, files: map<nat, OpenFile>, c: Call)
    reads dev
  {
    match c
    case CallOpen(fd, _) => fd !in files
    case StoreThroughMapping(at, _) => at < dev.numPages * PAGE_SIZE
    case CallMap(_, _) => true
    case CallIoctl(_, _, _) => true
    case _ => c.fd in files
  }

  /** Executes those of the `calls` that can be made, one after the other. */
  method Execute(dev: Device, files: map<nat, OpenFile>, calls: seq<Call>, ghost w: World)
    returns (newFiles: map<nat, OpenFile>, replies: seq<Reply>, ghost es: seq<Event>)
    requires InState(w, dev, files)
    modifies dev, dev.memList, files.Values
    ensures OwnsPages(dev)
    ensures Executed(w, calls, es, replies)
    ensures InState(Run(w, es), dev, newFiles)
    decreases |calls|
  {
    if calls == [] {
      newFiles, replies, es := files, [], [];
      assert w.replies + [] == w.replies;
    } else if CanCall(dev, files, calls[0]) {
      var more;
      ghost var e;
      newFiles, replies, e := Dispatch(dev, files, calls[0], w);
      StepOk(w, e);
      ghost var w' := Step(w, e);
      newFiles, more, es := Execute(dev, newFiles, calls[1..], w');
      ExecutedMore(w, calls, e, replies, es, more);
      replies, es := replies + more, [e] + es;
    } else {
      newFiles, replies, es := Execute(dev, files, calls[1..], w);
    }
  }

  /** From loading the module on, whatever calls are made: the disk, the positions and the
      replies are those of a run of these calls. */
  method ExecuteFromBoot(calls: seq<Call>)
    returns (dev: Device, files: map<nat, OpenFile>, replies: seq<Reply>, ghost es: seq<Event>)
    ensures fresh(dev) && Follows(BOOT, calls, es) && Possible(BOOT, es)
    ensures InState(Run(BOOT, es), dev, files) && replies == Run(BOOT, es).replies
  {
    dev := new Device();
    files, replies, es := Execute(dev, map[], calls, BOOT);
  }
}
