/**
 The scratch buffer of flush: segments are appended until the next would exceed the datagram
 size; then the buffer goes out and starts again.
 */
module Packing {
  import opened Serial
  import opened Segment
  import opened Codec

  /** The answers of the output callback, by question: true refuses. */
  type Oracle = nat -> bool

  datatype Scratch = Scratch(pending: seq<Wire>, out: seq<seq<Wire>>, asked: nat)

  const EMPTY: Scratch := Scratch([], [], 0)

  /** Handing over an empty buffer does nothing. */
  function Output(out: seq<seq<Wire>>, pending: seq<Wire>): seq<seq<Wire>> {
    if Size(pending) == 0 then out else out + [pending]
  }

  function Pack(sc: Scratch, w: Wire, mtu: nat): Scratch {
    if Size(sc.pending) + WireSize(w) > mtu then
      sc.(out := Output(sc.out, sc.pending), pending := [w])
    else sc.(pending := sc.pending + [w])
  }

  function Ask(sc: Scratch): Scratch {
    sc.(asked := sc.asked + 1)
  }

  function Finish(sc: Scratch): seq<seq<Wire>> {
    Output(sc.out, sc.pending)
  }

  function Flat(out: seq<seq<Wire>>): seq<Wire> {
    if out == [] then [] else Flat(out[..|out| - 1]) + out[|out| - 1]
  }

  /** Everything encoded so far in this flush. */
  function Encoded(sc: Scratch): seq<Wire> {
    Flat(sc.out) + sc.pending
  }

  /** The `i`-th datagram was begun because its first segment did not fit behind the one before. */
  ghost predicate BegunAt(out: seq<seq<Wire>>, i: nat, mtu: nat) {
    0 < i < |out| && out[i] != [] && Size(out[i - 1]) + WireSize(out[i][0]) > mtu
  }

  /** No datagram is empty or too large, and none ends while the next segment would fit. */
  ghost predicate Stacked(out: seq<seq<Wire>>, mtu: nat) {
    && (forall i :: 0 <= i < |out| ==> out[i] != [] && Size(out[i]) <= mtu)
    && (forall i :: 0 < i < |out| ==> BegunAt(out, i, mtu))
  }

  /** The finished datagrams, and the unfinished one behind them. */
  ghost predicate Fits(sc: Scratch, mtu: nat) {
    && Size(sc.pending) <= mtu
    && (sc.out != [] ==> sc.pending != [])
    && Stacked(Finish(sc), mtu)
  }

  lemma SizeZero(ws: seq<Wire>)
    ensures Size(ws) == 0 <==> ws == []
  {
  }

  lemma SizeSnoc(ws: seq<Wire>, w: Wire)
    ensures Size(ws + [w]) == Size(ws) + WireSize(w)
  {
    assert (ws + [w])[..|ws|] == ws;
  }

  lemma FlatSnoc(out: seq<seq<Wire>>, d: seq<Wire>)
    ensures Flat(out + [d]) == Flat(out) + d
  {
    assert (out + [d])[..|out|] == out;
  }

  lemma OutputFlat(out: seq<seq<Wire>>, pending: seq<Wire>)
    ensures Flat(Output(out, pending)) == Flat(out) + pending
  {
    SizeZero(pending);
    if pending != [] { FlatSnoc(out, pending); }
  }

  lemma PackEncodes(sc: Scratch, w: Wire, mtu: nat)
    ensures Encoded(Pack(sc, w, mtu)) == Encoded(sc) + [w]
  {
    if Size(sc.pending) + WireSize(w) > mtu {
      OutputFlat(sc.out, sc.pending);
    } else {
      Associative(Flat(sc.out), sc.pending, [w]);
    }
  }

  lemma StackedMore(out: seq<seq<Wire>>, d: seq<Wire>, d': seq<Wire>, mtu: nat)
    requires Stacked(out + [d], mtu) && d != [] && d' != [] && d'[0] == d[0] && Size(d') <= mtu
    ensures Stacked(out + [d'], mtu)
  {
    var a, b := out + [d], out + [d'];
    forall i | 0 < i < |b| ensures BegunAt(b, i, mtu) {
      assert BegunAt(a, i, mtu);
      assert i - 1 < |out| && a[i - 1] == b[i - 1];
    }
    forall i | 0 <= i < |b| ensures b[i] != [] && Size(b[i]) <= mtu {
      if i < |out| { assert b[i] == a[i]; }
    }
  }

  lemma StackedNext(out: seq<seq<Wire>>, d: seq<Wire>, mtu: nat)
    requires Stacked(out, mtu) && d != [] && Size(d) <= mtu
    requires out != [] ==> Size(out[|out| - 1]) + WireSize(d[0]) > mtu
    ensures Stacked(out + [d], mtu)
  {
    var b := out + [d];
    forall i | 0 < i < |b| ensures BegunAt(b, i, mtu) {
      if i < |out| { assert BegunAt(out, i, mtu); }
    }
  }

  lemma StackedFront(out: seq<seq<Wire>>, d: seq<Wire>, mtu: nat)
    requires Stacked(out + [d], mtu)
    ensures Stacked(out, mtu)
  {
    forall i | 0 < i < |out| ensures BegunAt(out, i, mtu) {
      assert BegunAt(out + [d], i, mtu);
    }
    forall i | 0 <= i < |out| ensures out[i] != [] && Size(out[i]) <= mtu {
      assert out[i] == (out + [d])[i];
    }
  }

  lemma PackStacks(sc: Scratch, w: Wire, mtu: nat)
    requires Fits(sc, mtu) && WireSize(w) <= mtu
    ensures Fits(Pack(sc, w, mtu), mtu)
  {
    SizeZero(sc.pending);
    SizeSnoc(sc.pending, w);
    SizeSnoc([], w);
    assert [] + [w] == [w];
    SizeZero(sc.pending + [w]);
    if Size(sc.pending) + WireSize(w) > mtu {
      StackedNext(Output(sc.out, sc.pending), [w], mtu);
    } else if sc.pending == [] {
      StackedNext([], [w], mtu);
      assert Output(sc.out, sc.pending + [w]) == [] + [[w]];
    } else {
      StackedMore(sc.out, sc.pending, sc.pending + [w], mtu);
    }
  }

  /** Packing keeps whole segments, in order, within the datagram size, and leaves no room unused. */
  lemma PackAppends(sc: Scratch, w: Wire, mtu: nat)
    requires Fits(sc, mtu) && WireSize(w) <= mtu
    ensures Fits(Pack(sc, w, mtu), mtu)
    ensures Encoded(Pack(sc, w, mtu)) == Encoded(sc) + [w]
    ensures Pack(sc, w, mtu).asked == sc.asked
  {
    PackEncodes(sc, w, mtu);
    PackStacks(sc, w, mtu);
  }

  lemma FinishFits(sc: Scratch, mtu: nat)
    requires Fits(sc, mtu)
    ensures Stacked(Finish(sc), mtu) && Stacked(sc.out, mtu)
    ensures Flat(Finish(sc)) == Encoded(sc)
  {
    OutputFlat(sc.out, sc.pending);
    SizeZero(sc.pending);
    if sc.pending != [] { StackedFront(sc.out, sc.pending, mtu); }
  }
}
