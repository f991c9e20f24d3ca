/** Runs in which a tasklet run follows every completed byte before the next one: then
    the drain never leaves its domain, and what the sender sent is what the readers get. */
module PortPrompt {
  import opened Bytes
  import opened Gpio
  import opened PortSpec
  import opened PortQueue
  import opened PortRuns

  ghost predicate Delivers(p: Port, e: Event) {
    e.Tasklet? && |p.queue.mem| + |e.grown| >= p.queue.dataSize + Count(p.ring)
  }

  /** A tasklet run that happens gets the pages it asks for, and no byte is completed
      while one is pending. */
  ghost predicate PromptStep(p: Port, e: Event) {
    && (e.Tasklet? ==> Delivers(p, e))
    && (e.Edge? && p.scheduled ==> p.sigFlag)
  }

  /** Between a completed byte and the next one a tasklet runs; anything else may happen
      in between. */
  ghost predicate Prompt(w: World, es: seq<Event>)
    requires Wf(w.port) && Possible(w, es)
    decreases |es|
  {
    es == [] || (PromptStep(w.port, es[0]) && (StepWf(w, es[0]); Prompt(Step(w, es[0]), es[1..])))
  }

  /** Every read of the run is in the domain; nothing is asked of the tasklet runs. */
  ghost predicate ReadsClean(w: World, es: seq<Event>)
    requires Wf(w.port) && Possible(w, es)
    decreases |es|
  {
    es == [] ||
    ((es[0].Tasklet? || InDomain(w.port, es[0])) && (StepWf(w, es[0]); ReadsClean(Step(w, es[0]), es[1..])))
  }

  /** The ring holds one byte while a tasklet run is pending, and none otherwise, and
      every assembled byte has been accepted. */
  ghost predicate OneAtATime(w: World) {
    && Count(w.port.ring) == (if w.port.scheduled then 1 else 0)
    && w.accepted == w.decoded
  }

  /** With one byte in the ring a tasklet run is always in the domain. */
  lemma OneByteInDomain(p: Port, e: Event)
    requires Wf(p) && Sound(p.queue) && Count(p.ring) == 1 && e.Tasklet?
    ensures InDomain(p, e)
  {
  }

  lemma EdgePrompt(w: World, pins: bv32)
    requires Wf(w.port) && OneAtATime(w) && PromptStep(w.port, Edge(pins))
    ensures !w.port.sigFlag ==> CircSpace(w.port.ring.tail, w.port.ring.head) > 0
    ensures OneAtATime(StepEdge(w, pins))
  {
    if !w.port.sigFlag {
      SpaceAndCount(w.port.ring);
      PutCount(w.port.ring, StepEdge(w, pins).port.halfByte);
    }
  }

  lemma TaskletPrompt(w: World, e: Event)
    requires Good(w) && OneAtATime(w) && Enabled(w, e) && e.Tasklet? && Delivers(w.port, e)
    ensures OneAtATime(Step(w, e))
  {
    DrainShape(w.port, e.beyond, e.grown);
  }

  lemma StepPrompt(w: World, e: Event)
    requires Good(w) && OneAtATime(w) && Enabled(w, e)
    requires PromptStep(w.port, e)
    requires e.Tasklet? || InDomain(w.port, e)
    ensures InDomain(w.port, e)
    ensures e.Edge? && !w.port.sigFlag ==> CircSpace(w.port.ring.tail, w.port.ring.head) > 0
    ensures Good(Step(w, e)) && OneAtATime(Step(w, e))
  {
    if e.Tasklet? {
      OneByteInDomain(w.port, e);
      TaskletPrompt(w, e);
    } else if e.Edge? {
      EdgePrompt(w, e.pins);
    }
    StepClean(w, e);
  }

  /** Prompt draining keeps every run clean that reads cleanly: each tasklet run finds
      exactly one byte, the ring is never full, and every assembled byte is accepted. */
  lemma {:induction false} PromptRunIsClean(w: World, es: seq<Event>)
    requires Good(w) && OneAtATime(w)
    requires Possible(w, es) && Prompt(w, es) && ReadsClean(w, es)
    ensures Clean(w, es)
    ensures Good(Run(w, es)) && OneAtATime(Run(w, es))
    decreases |es|
  {
    if es != [] {
      StepPrompt(w, es[0]);
      PromptRunIsClean(Step(w, es[0]), es[1..]);
    }
  }

  lemma GoodOf(w: World, bs: seq<byte>)
    requires Good(w) && w.accepted == bs
    ensures w.consumed + Unread(w.port.queue) + Live(w.port.ring) == bs
    ensures |w.consumed| <= |bs| && w.delivered == NonNul(bs[..|w.consumed|])
  {
    ConsumedAreAccepted(w);
    assert bs[..|w.consumed|] == w.consumed;
  }

  /** From end to end: a sender drives the pins for the bytes `bs`, with any noise on the
      other pins, tasklets run promptly and reads stay in their domain. Then what
      readers have moved past, what still waits for them, and the byte that may still
      be in the ring are exactly `bs`, and what they were given is what they moved past
      without its separators. */
  lemma SentIsDelivered(w: World, es: seq<Event>, bs: seq<byte>, noise: seq<bv32>)
    requires Boot(w)
    requires Possible(w, es) && Prompt(w, es) && ReadsClean(w, es)
    requires |noise| == 2 * |bs| && Run(w, es).pins == Send(bs, noise)
    ensures
      var w' := Run(w, es);
      && w'.consumed + Unread(w'.port.queue) + Live(w'.port.ring) == bs
      && |Live(w'.port.ring)| == (if w'.port.scheduled then 1 else 0)
      && w'.delivered == NonNul(bs[..|w'.consumed|])
  {
    var w' := Run(w, es);
    BootGood(w);
    PromptRunIsClean(w, es);
    RunDecodes(w, es);
    SendThenAssemble(bs, noise);
    GoodOf(w', bs);
  }
}
