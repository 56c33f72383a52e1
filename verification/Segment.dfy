/**
 Segments as they sit in the queues, and as they travel.
 */
module Segment {
  import opened Serial

  type byte = x: int | 0 <= x < 256
  type u16 = x: int | 0 <= x < 65536

  const PUSH: byte := 81
  const ACK: byte := 82
  const ASK_WINDOW: byte := 83
  const TELL_WINDOW: byte := 84
  const NOTIFY_BUFFER_FULL: byte := 87
  const OVERHEAD: nat := 24
  /** The largest window the 16-bit header field can announce. */
  const WINDOW_LIMIT: u32 := 65535

  /** A queued segment; its length field is the length of `data`. */
  datatype Seg = Seg(
    conv: u32,
    cmd: u32,
    frg: u32,
    wnd: u32,
    ts: u32,
    sn: u32,
    una: u32,
    resendTs: u32,
    rto: u32,
    fastAck: u32,
    xmit: u32,
    data: seq<byte>
  )

  /** A segment on the wire: the fields that the 24-byte header has room for, and the payload. */
  datatype Wire = Wire(
    conv: u32,
    cmd: byte,
    frg: byte,
    wnd: u16,
    ts: u32,
    sn: u32,
    una: u32,
    data: seq<byte>
  )

  /** What the application gave and gets: a piece of the stream and its fragment counter. */
  datatype Fragment = Fragment(frg: u32, data: seq<byte>)

  function ToWire(s: Seg): Wire {
    Wire(s.conv, s.cmd % 256, s.frg % 256, s.wnd % 65536, s.ts, s.sn, s.una, s.data)
  }

  /** The segment that the input loop allocates for a received PUSH. */
  function FromWire(w: Wire): Seg {
    Seg(w.conv, w.cmd, w.frg, w.wnd, w.ts, w.sn, w.una, 0, 0, 0, 0, w.data)
  }

  function View(s: Seg): Fragment {
    Fragment(s.frg, s.data)
  }

  function Views(q: seq<Seg>): (r: seq<Fragment>)
    ensures |r| == |q|
    ensures forall i :: 0 <= i < |q| ==> r[i] == View(q[i])
  {
    seq(|q|, i requires 0 <= i < |q| => View(q[i]))
  }

  lemma ViewsConcat(a: seq<Seg>, b: seq<Seg>)
    ensures Views(a + b) == Views(a) + Views(b)
  {
  }

  /** Concatenated payloads of a list of fragments. */
  function Payload(fs: seq<Fragment>): seq<byte> {
    if fs == [] then [] else fs[0].data + Payload(fs[1..])
  }

  lemma Associative<T>(a: seq<T>, b: seq<T>, c: seq<T>)
    ensures a + b + c == a + (b + c)
  {
  }

  lemma {:induction false} PayloadConcat(a: seq<Fragment>, b: seq<Fragment>)
    ensures Payload(a + b) == Payload(a) + Payload(b)
  {
    if a == [] {
      assert a + b == b;
    } else {
      assert (a + b)[1..] == a[1..] + b;
      PayloadConcat(a[1..], b);
    }
  }
}
