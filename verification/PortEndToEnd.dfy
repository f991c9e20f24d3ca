/** The whole asgn2 driver in place, from the pins to the reader's buffer. */
module PortEndToEnd {
  import opened Bytes
  import opened PortSpec
  import opened PortWitness
  import opened PortStreams
  import opened PortDriver
  import opened PortDispatch

  /** A newly loaded driver is opened and sent any bytes, with a tasklet run after each
      that can have a page: it then holds exactly these bytes for its reader. */
  method SendInPlace(bs: seq<byte>, beyond: seq<byte>, left: nat) returns (d: Driver, out: seq<byte>)
    requires |beyond| == BUF_SIZE && left > 0
    ensures fresh(d) && d.Valid()
    ensures Unread(d.View().queue) == bs && out == []
  {
    var o;
    ghost var w, es;
    d, o, w, es := ExecuteFromBoot(LoadCalls(bs, beyond, left));
    LoadIsLoaded(w, bs, beyond, left, es);
    out := o.out;
  }

  /** If no separator is the first or the last byte of a page, a reader that reads on, and
      opens the device anew after each separator, is given all of them but the separators. */
  method StreamInPlace(bs: seq<byte>, beyond: seq<byte>, left: nat) returns (d: Driver, out: seq<byte>)
    requires Placed(bs, 0) && |beyond| == BUF_SIZE && left > 0
    ensures fresh(d) && d.Valid()
    ensures out == NonNul(bs) && Unread(d.View().queue) == []
  {
    var o;
    ghost var w, es;
    d, o, w, es := ExecuteFromBoot(StreamCalls(bs, beyond, left));
    StreamPasses(w, bs, beyond, left, es);
    NothingLeft(w, bs, es);
    out := o.out;
  }
}
