/**
 The 24-byte segment header, and the decoding loop of a received datagram.
 */
module Codec {
  import opened Serial
  import opened Segment

  // ---------- integer codecs ----------

  /** The two bytes of `w`, least significant first: what the shifting variant stores. */
  function Encode16(w: u16): (r: seq<byte>)
    ensures |r| == 2
  {
    [w % 256, w / 256]
  }

  function Encode32(l: u32): (r: seq<byte>)
    ensures |r| == 4
  {
    [l % 256, l / 0x100 % 256, l / 0x1_0000 % 256, l / 0x100_0000 % 256]
  }

  /** The number a little-endian machine reads from a run of bytes. */
  function LoadLittleEndian(b: seq<byte>): nat {
    if b == [] then 0 else b[0] + 256 * LoadLittleEndian(b[1..])
  }

  function Decode16(b: seq<byte>): u16
    requires |b| == 2
  {
    var (b0: int, b1: int) := (b[0], b[1]);
    b0 + 256 * b1
  }

  function Decode32(b: seq<byte>): u32
    requires |b| == 4
  {
    var (b0: int, b1: int, b2: int, b3: int) := (b[0], b[1], b[2], b[3]);
    b0 + 0x100 * b1 + 0x1_0000 * b2 + 0x100_0000 * b3
  }

  /** The portable decoders: accumulate from the last byte, shifting left in the word's width. */
  function DecodeShifting16(b: seq<byte>): u16
    requires |b| == 2
  {
    var w: u16 := b[1];
    (b[0] + w * 256 % 0x1_0000) % 0x1_0000
  }

  function DecodeShifting32(b: seq<byte>): u32
    requires |b| == 4
  {
    var l: u32 := b[3];
    var l := ToU32(b[2] + ToU32(l * 256));
    var l := ToU32(b[1] + ToU32(l * 256));
    ToU32(b[0] + ToU32(l * 256))
  }

  /**
   The two byte-order variants agree: the shifting encoder stores exactly the bytes from which a
   little-endian machine loads the number back, those bytes are the only ones, and the shifting
   decoder computes the same number as the load.
   */
  lemma ByteOrderVariantsAgree32(l: u32, b: seq<byte>)
    requires |b| == 4
    ensures LoadLittleEndian(b) == l <==> b == Encode32(l)
    ensures DecodeShifting32(b) == LoadLittleEndian(b) == Decode32(b)
  {
    Load4(b);
    Shifting4(b);
    Digits(b);
    RoundTrip32(l);
  }

  lemma ByteOrderVariantsAgree16(w: u16, b: seq<byte>)
    requires |b| == 2
    ensures LoadLittleEndian(b) == w <==> b == Encode16(w)
    ensures DecodeShifting16(b) == LoadLittleEndian(b) == Decode16(b)
  {
    Load2(b);
    Digits16(b);
    RoundTrip16(w);
  }

  lemma Load2(b: seq<byte>)
    requires |b| == 2
    ensures LoadLittleEndian(b) == Decode16(b)
  {
    assert b[1..][1..] == [];
    assert LoadLittleEndian(b) == b[0] + 256 * LoadLittleEndian(b[1..]);
    assert LoadLittleEndian(b[1..]) == b[1] + 256 * LoadLittleEndian([]);
  }

  lemma Digits16(b: seq<byte>)
    requires |b| == 2
    ensures b == Encode16(Decode16(b)) && DecodeShifting16(b) == Decode16(b)
  {
  }

  lemma RoundTrip16(w: u16)
    ensures Decode16(Encode16(w)) == w
  {
  }

  lemma Load4(b: seq<byte>)
    requires |b| == 4
    ensures LoadLittleEndian(b) == Decode32(b)
  {
    var b1, b2, b3 := b[1..], b[2..], b[3..];
    assert b1[1..] == b2 && b2[1..] == b3 && b3[1..] == [];
    assert LoadLittleEndian(b3) == b3[0] + 256 * LoadLittleEndian([]);
    assert LoadLittleEndian(b2) == b2[0] + 256 * LoadLittleEndian(b3);
    assert LoadLittleEndian(b1) == b1[0] + 256 * LoadLittleEndian(b2);
  }

  lemma Digits(b: seq<byte>)
    requires |b| == 4
    ensures b == Encode32(Decode32(b))
  {
    var (b0: int, b1: int, b2: int, b3: int) := (b[0], b[1], b[2], b[3]);
    var m2 := b2 + 256 * b3;
    var m1 := b1 + 256 * m2;
    LowDigit(b0, m1);
    LowDigit(b1, m2);
    LowDigit(b2, b3);
    assert Decode32(b) == b0 + 256 * m1;
    TwoDigits(Decode32(b));
  }

  lemma LowDigit(d: byte, m: nat)
    ensures (d + 256 * m) % 256 == d && (d + 256 * m) / 256 == m
  {
  }

  lemma TwoDigits(l: nat)
    ensures l / 0x1_0000 == l / 256 / 256 && l / 0x100_0000 == l / 256 / 256 / 256
  {
  }

  lemma Shifting4(b: seq<byte>)
    requires |b| == 4
    ensures DecodeShifting32(b) == Decode32(b)
  {
    var (b0: int, b1: int, b2: int, b3: int) := (b[0], b[1], b[2], b[3]);
    FitsWord(b3 * 256);
    FitsWord(b2 + b3 * 256);
    var l2 := b2 + b3 * 256;
    FitsWord(l2 * 256);
    FitsWord(b1 + l2 * 256);
    var l1 := b1 + l2 * 256;
    FitsWord(l1 * 256);
    FitsWord(b0 + l1 * 256);
  }

  lemma RoundTrip32(l: u32)
    ensures Decode32(Encode32(l)) == l
  {
    var m1, m2 := l / 0x100, l / 0x1_0000;
    assert l == l % 256 + 256 * m1 && m1 / 256 == m2 && m2 / 256 == l / 0x100_0000;
  }

  // ---------- header ----------

  datatype Header = Header(
    conv: u32, cmd: byte, frg: byte, wnd: u16, ts: u32, sn: u32, una: u32, len: u32)

  function HeaderOf(w: Wire): Header {
    Header(w.conv, w.cmd, w.frg, w.wnd, w.ts, w.sn, w.una, ToU32(|w.data|))
  }

  /** Segments of the conversation whose payload length fits the header's 32-bit field. */
  ghost predicate Sendable(ws: seq<Wire>, conv: u32) {
    forall i :: 0 <= i < |ws| ==> ws[i].conv == conv && |ws[i].data| < MODULUS
  }

  function EncodeHeader(h: Header): (r: seq<byte>)
    ensures |r| == OVERHEAD
  {
    Encode32(h.conv) + [h.cmd] + [h.frg] + Encode16(h.wnd) + Encode32(h.ts) +
    Encode32(h.sn) + Encode32(h.una) + Encode32(h.len)
  }

  function DecodeHeader(b: seq<byte>): Header
    requires |b| >= OVERHEAD
  {
    Header(
      Decode32(b[..4]), b[4], b[5], Decode16(b[6..8]), Decode32(b[8..12]),
      Decode32(b[12..16]), Decode32(b[16..20]), Decode32(b[20..24]))
  }

  lemma HeaderRoundTrip(h: Header, rest: seq<byte>)
    ensures DecodeHeader(EncodeHeader(h) + rest) == h
  {
    var b := EncodeHeader(h) + rest;
    assert b[..4] == Encode32(h.conv);
    assert b[6..8] == Encode16(h.wnd);
    assert b[8..12] == Encode32(h.ts);
    assert b[12..16] == Encode32(h.sn);
    assert b[16..20] == Encode32(h.una);
    assert b[20..24] == Encode32(h.len);
    RoundTrip32(h.conv);
    RoundTrip32(h.ts);
    RoundTrip32(h.sn);
    RoundTrip32(h.una);
    RoundTrip32(h.len);
  }

  /** Reading only the header of a datagram. */
  datatype HeadResult = Head(header: Header) | TooShort

  function GetHead(b: seq<byte>): HeadResult {
    if |b| < OVERHEAD then TooShort else Head(DecodeHeader(b))
  }

  // ---------- datagrams ----------

  function EncodeWire(w: Wire): (r: seq<byte>)
    ensures |r| == WireSize(w)
  {
    EncodeHeader(HeaderOf(w)) + w.data
  }

  function WireSize(w: Wire): nat {
    OVERHEAD + |w.data|
  }

  function Size(ws: seq<Wire>): nat {
    if ws == [] then 0 else Size(ws[..|ws| - 1]) + WireSize(ws[|ws| - 1])
  }

  /** The concatenation of a list of blocks. */
  function Concat(blocks: seq<seq<byte>>): seq<byte> {
    if blocks == [] then [] else Concat(blocks[..|blocks| - 1]) + blocks[|blocks| - 1]
  }

  lemma {:induction false} ConcatFront(blocks: seq<seq<byte>>)
    requires blocks != []
    ensures Concat(blocks) == blocks[0] + Concat(blocks[1..])
  {
    var n := |blocks| - 1;
    if n == 0 {
      assert blocks[..0] == [] && blocks[1..] == [];
    } else {
      ConcatFront(blocks[..n]);
      var later := blocks[1..];
      assert blocks[..n][1..] == later[..n - 1] && later[n - 1] == blocks[n] && |later| == n;
      assert Concat(later) == Concat(later[..n - 1]) + later[n - 1];
      assert Concat(blocks) == Concat(blocks[..n]) + blocks[n];
      Associative(blocks[0], Concat(later[..n - 1]), blocks[n]);
    }
  }

  function Encodings(ws: seq<Wire>): (r: seq<seq<byte>>)
    ensures |r| == |ws|
  {
    seq(|ws|, i requires 0 <= i < |ws| => EncodeWire(ws[i]))
  }

  function EncodeAll(ws: seq<Wire>): seq<byte> {
    Concat(Encodings(ws))
  }

  lemma EncodeAllSnoc(ws: seq<Wire>, w: Wire)
    ensures EncodeAll(ws + [w]) == EncodeAll(ws) + EncodeWire(w)
  {
    var e := Encodings(ws + [w]);
    assert e[..|ws|] == Encodings(ws);
  }

  lemma {:induction false} EncodeAllSize(ws: seq<Wire>)
    ensures |EncodeAll(ws)| == Size(ws)
  {
    if ws != [] {
      var n := |ws| - 1;
      EncodeAllSize(ws[..n]);
      assert ws == ws[..n] + [ws[n]];
      EncodeAllSnoc(ws[..n], ws[n]);
    }
  }

  lemma EncodeAllFront(ws: seq<Wire>, tail: seq<byte>)
    requires ws != []
    ensures EncodeAll(ws) + tail == EncodeWire(ws[0]) + (EncodeAll(ws[1..]) + tail)
  {
    var e := Encodings(ws);
    ConcatFront(e);
    assert e[1..] == Encodings(ws[1..]);
    Associative(e[0], Concat(e[1..]), tail);
  }

  predicate Accepted(cmd: byte) {
    cmd == PUSH || cmd == ACK || cmd == ASK_WINDOW || cmd == TELL_WINDOW || cmd == NOTIFY_BUFFER_FULL
  }

  /** A buffer-full notification is handled as a PUSH. */
  function Normal(w: Wire): Wire {
    if w.cmd == NOTIFY_BUFFER_FULL then w.(cmd := PUSH) else w
  }

  function Normals(ws: seq<Wire>): (r: seq<Wire>)
    ensures |r| == |ws|
    ensures forall i :: 0 <= i < |ws| ==> r[i] == Normal(ws[i])
  {
    seq(|ws|, i requires 0 <= i < |ws| => Normal(ws[i]))
  }

  const OK: int := 0
  const WRONG_CONVERSATION: int := -1
  const TRUNCATED: int := -2
  const UNKNOWN_COMMAND: int := -3

  /** The segments a datagram yields, the code the loop ends with, and the bytes it did not consume. */
  datatype Parsed = Parsed(segs: seq<Wire>, code: int, rest: seq<byte>)

  /** One turn of the decoding loop: the segment at the front of `b`, or the reason to stop. */
  datatype FrontResult = Segment(w: Wire, rest: seq<byte>) | Stop(code: int)

  function Front(b: seq<byte>, conv: u32): (r: FrontResult)
    ensures r.Segment? ==> |r.rest| + OVERHEAD <= |b|
  {
    if |b| < OVERHEAD then Stop(OK)
    else
      var h := DecodeHeader(b);
      var cmd := if h.cmd == NOTIFY_BUFFER_FULL then PUSH else h.cmd;
      if h.conv != conv then Stop(WRONG_CONVERSATION)
      else if |b| - OVERHEAD < h.len then Stop(TRUNCATED)
      else if !Accepted(cmd) then Stop(UNKNOWN_COMMAND)
      else Segment(
             Wire(h.conv, cmd, h.frg, h.wnd, h.ts, h.sn, h.una, b[OVERHEAD..OVERHEAD + h.len]),
             b[OVERHEAD + h.len..])
  }

  function Parse(b: seq<byte>, conv: u32): Parsed
    decreases |b|
  {
    match Front(b, conv)
    case Stop(code) => Parsed([], code, b)
    case Segment(w, rest) =>
      var p := Parse(rest, conv);
      Parsed([w] + p.segs, p.code, p.rest)
  }

  /** Number of leading segments whose command the loop accepts. */
  function AcceptedPrefix(ws: seq<Wire>): (n: nat)
    ensures n <= |ws|
    ensures forall i :: 0 <= i < n ==> Accepted(ws[i].cmd)
    ensures n < |ws| ==> !Accepted(ws[n].cmd)
  {
    if ws == [] || !Accepted(ws[0].cmd) then 0 else 1 + AcceptedPrefix(ws[1..])
  }

  /** One turn of the loop, on bytes whose header, payload and rest are known. */
  lemma FrontOf(b: seq<byte>, h: Header, data: seq<byte>, tail: seq<byte>, conv: u32)
    requires |b| == OVERHEAD + |data| + |tail| && DecodeHeader(b) == h && h.conv == conv && h.len == |data|
    requires b[OVERHEAD..OVERHEAD + |data|] == data && b[OVERHEAD + |data|..] == tail
    ensures Front(b, conv) ==
            if Accepted(h.cmd) then
              Segment(Normal(Wire(h.conv, h.cmd, h.frg, h.wnd, h.ts, h.sn, h.una, data)), tail)
            else Stop(UNKNOWN_COMMAND)
  {
  }

  lemma SlicesBack(head: seq<byte>, data: seq<byte>, tail: seq<byte>)
    ensures var b := head + data + tail;
            b[|head|..|head| + |data|] == data && b[|head| + |data|..] == tail
  {
  }

  lemma FrontOfEncoded(w: Wire, tail: seq<byte>, conv: u32)
    requires w.conv == conv && |w.data| < MODULUS
    ensures Front(EncodeWire(w) + tail, conv) ==
            if Accepted(w.cmd) then Segment(Normal(w), tail) else Stop(UNKNOWN_COMMAND)
  {
    var head := EncodeHeader(HeaderOf(w));
    Associative(head, w.data, tail);
    HeaderRoundTrip(HeaderOf(w), w.data + tail);
    SlicesBack(head, w.data, tail);
    FrontOf(EncodeWire(w) + tail, HeaderOf(w), w.data, tail, conv);
  }

  /** The block `e`, in front of any bytes, makes one turn of the loop over `w`. */
  ghost predicate Decodes(e: seq<byte>, w: Wire) {
    forall tail: seq<byte> :: Front(e + tail, w.conv) ==
      if Accepted(w.cmd) then Segment(Normal(w), tail) else Stop(UNKNOWN_COMMAND)
  }

  lemma EncodingDecodes(w: Wire)
    requires |w.data| < MODULUS
    ensures Decodes(EncodeWire(w), w)
  {
    forall tail: seq<byte>
      ensures Front(EncodeWire(w) + tail, w.conv) ==
              if Accepted(w.cmd) then Segment(Normal(w), tail) else Stop(UNKNOWN_COMMAND)
    {
      FrontOfEncoded(w, tail, w.conv);
    }
  }

  lemma ParseBlock(e: seq<byte>, w: Wire, tail: seq<byte>)
    requires Decodes(e, w)
    ensures Parse(e + tail, w.conv) ==
            if Accepted(w.cmd) then
              var p := Parse(tail, w.conv); Parsed([Normal(w)] + p.segs, p.code, p.rest)
            else Parsed([], UNKNOWN_COMMAND, e + tail)
  {
  }

  lemma NormalsFront(ws: seq<Wire>, n: nat)
    requires 1 <= n <= |ws|
    ensures [Normal(ws[0])] + Normals(ws[1..][..n - 1]) == Normals(ws[..n])
  {
  }

  lemma {:induction false} ParseBlocks(
      ws: seq<Wire>, es: seq<seq<byte>>, tail: seq<byte>, conv: u32, bytes: seq<byte>)
    requires |es| == |ws| && bytes == Concat(es) + tail
    requires forall i :: 0 <= i < |ws| ==> ws[i].conv == conv && Decodes(es[i], ws[i])
    requires |tail| < OVERHEAD
    ensures Parse(bytes, conv) == Recovered(ws, es, tail)
  {
    if ws == [] {
      assert bytes == tail;
    } else {
      var later := Concat(es[1..]) + tail;
      FirstBlock(es, tail);
      ParseBlock(es[0], ws[0], later);
      if Accepted(ws[0].cmd) {
        ParseBlocks(ws[1..], es[1..], tail, conv, later);
        RecoveredFront(ws, es, tail);
      } else {
        assert es[0..] == es;
      }
    }
  }

  /** What encoded segments are recovered as, and what is left. */
  function Recovered(ws: seq<Wire>, es: seq<seq<byte>>, tail: seq<byte>): Parsed
    requires |es| == |ws|
  {
    var n := AcceptedPrefix(ws);
    Parsed(Normals(ws[..n]), if n == |ws| then OK else UNKNOWN_COMMAND, Concat(es[n..]) + tail)
  }

  lemma RecoveredFront(ws: seq<Wire>, es: seq<seq<byte>>, tail: seq<byte>)
    requires |es| == |ws| && ws != [] && Accepted(ws[0].cmd)
    ensures var p := Recovered(ws[1..], es[1..], tail);
            Recovered(ws, es, tail) == Parsed([Normal(ws[0])] + p.segs, p.code, p.rest)
  {
    var n := AcceptedPrefix(ws);
    assert es[1..][n - 1..] == es[n..];
    NormalsFront(ws, n);
  }

  lemma FirstBlock(es: seq<seq<byte>>, tail: seq<byte>)
    requires es != []
    ensures Concat(es) + tail == es[0] + (Concat(es[1..]) + tail)
  {
    ConcatFront(es);
    Associative(es[0], Concat(es[1..]), tail);
  }

  /**
   Packed datagram round trip, for any segments of the conversation and any trailing bytes too
   short to be a header: the loop recovers exactly the segments before the first unknown command,
   and stops there with the error code or, if there is none, at the trailing bytes.
   */
  lemma ParseEncoded(ws: seq<Wire>, tail: seq<byte>, conv: u32)
    requires Sendable(ws, conv)
    requires |tail| < OVERHEAD
    ensures var n := AcceptedPrefix(ws);
            Parse(EncodeAll(ws) + tail, conv) ==
            Parsed(Normals(ws[..n]), if n == |ws| then OK else UNKNOWN_COMMAND, EncodeAll(ws[n..]) + tail)
  {
    var es := Encodings(ws);
    forall i | 0 <= i < |ws| ensures Decodes(es[i], ws[i]) {
      EncodingDecodes(ws[i]);
    }
    ParseBlocks(ws, es, tail, conv, EncodeAll(ws) + tail);
    EncodingsFrom(ws, AcceptedPrefix(ws));
  }

  lemma EncodingsFrom(ws: seq<Wire>, n: nat)
    requires n <= |ws|
    ensures Encodings(ws)[n..] == Encodings(ws[n..])
  {
  }

  /** The whole list comes back, with every byte consumed, exactly when every command is accepted. */
  lemma DatagramRoundTrip(ws: seq<Wire>, conv: u32)
    requires Sendable(ws, conv)
    ensures Parse(EncodeAll(ws), conv) == Parsed(Normals(ws), OK, []) <==>
            forall i :: 0 <= i < |ws| ==> Accepted(ws[i].cmd)
  {
    ParseEncoded(ws, [], conv);
    assert EncodeAll(ws) + [] == EncodeAll(ws);
    assert ws[..|ws|] == ws && ws[|ws|..] == [];
  }

  /** `GetHead` on a datagram returns the header of its first segment, whatever its command. */
  lemma GetHeadAgrees(ws: seq<Wire>)
    requires ws != []
    ensures GetHead(EncodeAll(ws)) == Head(HeaderOf(ws[0]))
  {
    EncodeAllFront(ws, []);
    assert EncodeAll(ws) == EncodeAll(ws) + [];
    assert EncodeAll(ws) == EncodeHeader(HeaderOf(ws[0])) + (ws[0].data + EncodeAll(ws[1..]));
    HeaderRoundTrip(HeaderOf(ws[0]), ws[0].data + EncodeAll(ws[1..]));
  }

  // ---------- the format, byte by byte, and what any bytes decode to ----------

  /** The little-endian word at a position. */
  function WordAt(b: seq<byte>, i: nat): nat
    requires i + 4 <= |b|
  {
    LoadLittleEndian(b[i..i + 4])
  }

  /** Where each field of a header is. */
  ghost predicate LaidOut(b: seq<byte>, h: Header) {
    && |b| >= 24
    && WordAt(b, 0) == h.conv && b[4] == h.cmd && b[5] == h.frg && LoadLittleEndian(b[6..8]) == h.wnd
    && WordAt(b, 8) == h.ts && WordAt(b, 12) == h.sn && WordAt(b, 16) == h.una && WordAt(b, 20) == h.len
  }

  /** Both directions of the codec go by the same layout. */
  lemma HeaderLayout(b: seq<byte>)
    requires |b| >= OVERHEAD
    ensures LaidOut(b, DecodeHeader(b)) && EncodeHeader(DecodeHeader(b)) == b[..OVERHEAD]
  {
    Load4(b[0..4]);
    assert b[0..4] == b[..4];
    Load2(b[6..8]);
    Load4(b[8..12]);
    Load4(b[12..16]);
    Load4(b[16..20]);
    Load4(b[20..24]);
    DigitsBack(b);
  }

  lemma DigitsBack(b: seq<byte>)
    requires |b| >= OVERHEAD
    ensures EncodeHeader(DecodeHeader(b)) == b[..OVERHEAD]
  {
    Digits(b[..4]);
    Digits16(b[6..8]);
    Digits(b[8..12]);
    Digits(b[12..16]);
    Digits(b[16..20]);
    Digits(b[20..24]);
    assert b[..OVERHEAD] == b[..4] + [b[4]] + [b[5]] + b[6..8] + b[8..12] + b[12..16] + b[16..20] + b[20..24];
  }

  /** Why the decoding loop stops at `rest`, by the fields of the header that is there. */
  ghost predicate StopsAt(rest: seq<byte>, conv: u32, code: int) {
    if |rest| < 24 then code == 0
    else if WordAt(rest, 0) != conv then code == -1
    else if |rest| - 24 < WordAt(rest, 20) then code == -2
    else code == -3 && rest[4] !in {81, 82, 83, 84, 87}
  }

  lemma StopExplained(b: seq<byte>, conv: u32)
    requires Front(b, conv).Stop?
    ensures StopsAt(b, conv, Front(b, conv).code)
  {
    if |b| >= OVERHEAD { HeaderLayout(b); }
  }

  /** A segment in front: the bytes are its encoding, but for the command that is handled as a PUSH. */
  lemma SegmentExplained(b: seq<byte>, conv: u32) returns (w: Wire)
    requires Front(b, conv).Segment?
    ensures Front(b, conv).w == Normal(w) && w.conv == conv && |w.data| < MODULUS
    ensures w.cmd in {81, 82, 83, 84, 87}
    ensures b == EncodeWire(w) + Front(b, conv).rest
  {
    var h := DecodeHeader(b);
    HeaderLayout(b);
    w := Wire(h.conv, h.cmd, h.frg, h.wnd, h.ts, h.sn, h.una, b[OVERHEAD..OVERHEAD + h.len]);
    FitsWord(h.len);
    assert HeaderOf(w) == h;
    assert b == b[..OVERHEAD] + b[OVERHEAD..OVERHEAD + h.len] + b[OVERHEAD + h.len..];
  }

  /** `b` is the encodings of `ws`, which are `p.segs`, and then bytes at which the loop stops for their header. */
  ghost predicate Explained(b: seq<byte>, conv: u32, p: Parsed, ws: seq<Wire>) {
    && p.segs == Normals(ws) && b == EncodeAll(ws) + p.rest
    && (forall i :: 0 <= i < |ws| ==> ws[i].conv == conv && ws[i].cmd in {81, 82, 83, 84, 87})
    && StopsAt(p.rest, conv, p.code)
  }

  lemma ExplainedMore(b: seq<byte>, conv: u32, w: Wire, rest: seq<byte>, p: Parsed, later: seq<Wire>)
    requires Explained(rest, conv, p, later) && b == EncodeWire(w) + rest
    requires w.conv == conv && w.cmd in {81, 82, 83, 84, 87}
    ensures Explained(b, conv, Parsed([Normal(w)] + p.segs, p.code, p.rest), [w] + later)
  {
    var ws := [w] + later;
    assert ws[1..] == later;
    EncodeAllFront(ws, p.rest);
    assert Normals(ws) == [Normal(w)] + Normals(later);
  }

  /**
   Any bytes: they are the encodings of segments of the conversation with known commands, which the loop
   yields in order, and then of bytes at which it stops with the code that their header calls for.
   */
  lemma {:induction false} ParseExplained(b: seq<byte>, conv: u32) returns (p: Parsed, ws: seq<Wire>)
    ensures p == Parse(b, conv) && Explained(b, conv, p, ws)
    decreases |b|
  {
    match Front(b, conv)
    case Stop(code) =>
      p, ws := Parsed([], code, b), [];
      StopExplained(b, conv);
      NothingBefore(b);
    case Segment(_, rest) =>
      var w := SegmentExplained(b, conv);
      var p1, later := ParseExplained(rest, conv);
      ExplainedMore(b, conv, w, rest, p1, later);
      p, ws := Parsed([Normal(w)] + p1.segs, p1.code, p1.rest), [w] + later;
  }

  lemma NothingBefore(b: seq<byte>)
    ensures EncodeAll([]) + b == b && Normals([]) == []
  {
    assert Encodings([]) == [];
  }

  // ---------- writing into the scratch buffer ----------

  method Put8(buf: array<byte>, p: nat, c: byte) returns (q: nat)
    requires p + 1 <= buf.Length
    modifies buf
    ensures q == p + 1
    ensures buf[..q] == old(buf[..p]) + [c]
  {
    buf[p] := c;
    q := p + 1;
  }

  method Put16(buf: array<byte>, p: nat, w: u16) returns (q: nat)
    requires p + 2 <= buf.Length
    modifies buf
    ensures q == p + 2
    ensures buf[..q] == old(buf[..p]) + Encode16(w)
  {
    buf[p] := w % 256;
    buf[p + 1] := w / 256;
    q := p + 2;
  }

  method Put32(buf: array<byte>, p: nat, l: u32) returns (q: nat)
    requires p + 4 <= buf.Length
    modifies buf
    ensures q == p + 4
    ensures buf[..q] == old(buf[..p]) + Encode32(l)
  {
    buf[p] := l % 256;
    buf[p + 1] := l / 0x100 % 256;
    buf[p + 2] := l / 0x1_0000 % 256;
    buf[p + 3] := l / 0x100_0000 % 256;
    q := p + 4;
  }

  /** Writes the header of `s` at offset `p`; command, fragment and window are cut to their widths. */
  method PutHeader(buf: array<byte>, p: nat, s: Seg) returns (q: nat)
    requires p + OVERHEAD <= buf.Length
    requires |s.data| < MODULUS
    modifies buf
    ensures q == p + OVERHEAD
    ensures buf[..q] == old(buf[..p]) + EncodeHeader(HeaderOf(ToWire(s)))
  {
    ghost var h, s0 := HeaderOf(ToWire(s)), buf[..p];
    q := PutMarks(buf, p, s.conv, s.cmd % 256, s.frg % 256, s.wnd % 65536);
    q := PutWords(buf, q, s.ts, s.sn, s.una, ToU32(|s.data|));
    Associative(s0, Marks(h.conv, h.cmd, h.frg, h.wnd), Words(h.ts, h.sn, h.una, h.len));
    HeaderParts(h);
  }

  /** The first eight bytes of a header, and the four words behind them. */
  function Marks(conv: u32, cmd: byte, frg: byte, wnd: u16): seq<byte> {
    Encode32(conv) + [cmd] + [frg] + Encode16(wnd)
  }

  function Words(ts: u32, sn: u32, una: u32, len: u32): seq<byte> {
    Encode32(ts) + Encode32(sn) + Encode32(una) + Encode32(len)
  }

  lemma HeaderParts(h: Header)
    ensures EncodeHeader(h) == Marks(h.conv, h.cmd, h.frg, h.wnd) + Words(h.ts, h.sn, h.una, h.len)
  {
  }

  method PutMarks(buf: array<byte>, p: nat, conv: u32, cmd: byte, frg: byte, wnd: u16) returns (q: nat)
    requires p + 8 <= buf.Length
    modifies buf
    ensures q == p + 8
    ensures buf[..q] == old(buf[..p]) + Marks(conv, cmd, frg, wnd)
  {
    ghost var s0 := buf[..p];
    q := Put32(buf, p, conv);
    q := Put8(buf, q, cmd);
    q := Put8(buf, q, frg);
    q := Put16(buf, q, wnd);
    assert buf[..q] == s0 + Marks(conv, cmd, frg, wnd);
  }

  method PutWords(buf: array<byte>, p: nat, ts: u32, sn: u32, una: u32, len: u32) returns (q: nat)
    requires p + 16 <= buf.Length
    modifies buf
    ensures q == p + 16
    ensures buf[..q] == old(buf[..p]) + Words(ts, sn, una, len)
  {
    ghost var s0 := buf[..p];
    q := Put32(buf, p, ts);
    q := Put32(buf, q, sn);
    q := Put32(buf, q, una);
    q := Put32(buf, q, len);
    assert buf[..q] == s0 + Words(ts, sn, una, len);
  }

  /** Copies the payload of a segment behind its header. */
  method PutData(buf: array<byte>, p: nat, data: seq<byte>) returns (q: nat)
    requires p + |data| <= buf.Length
    modifies buf
    ensures q == p + |data|
    ensures buf[..q] == old(buf[..p]) + data
  {
    q := p;
    for i := 0 to |data|
      invariant q == p + i
      invariant buf[..q] == old(buf[..p]) + data[..i]
    {
      buf[q] := data[i];
      q := q + 1;
      assert data[..i + 1] == data[..i] + [data[i]];
    }
    assert data[..|data|] == data;
  }
}
