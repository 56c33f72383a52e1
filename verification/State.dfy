/**
 The control block of one endpoint, as a value, and its defaults.
 */
module State {
  import opened Serial
  import opened Segment
  import opened AckList
  import opened Rtt
  import opened Congestion
  import opened Receiver

  const PROBE_INIT: u32 := 7000
  const PROBE_LIMIT: u32 := 120000
  const DEFAULT_WINDOW: u16 := 32
  const DEFAULT_INTERVAL: u32 := 100
  const DEFAULT_DEAD_LINK: u32 := 20
  const DEFAULT_THRESHOLD: u32 := 2

  datatype Config = Config(
    conv: u32,
    mtu: u32,
    mss: u32,
    sndWnd: u32,
    stream: bool,
    nodelay: bool,
    fastResend: u32,
    noCwnd: bool,
    deadLink: u32,
    interval: u32
  )

  /** The sender: numbers, unsent queue, unacknowledged buffer. */
  datatype Snd = Snd(una: u32, nxt: u32, queue: seq<Seg>, buf: seq<Seg>)

  /** The two bits of the probe mask, and the timer for asking. */
  datatype Probe = Probe(ask: bool, tell: bool, wait: u32, ts: u32)

  datatype Clock = Clock(current: u32, tsFlush: u32, updated: bool)

  datatype Endpoint = Endpoint(
    cfg: Config,
    snd: Snd,
    rcv: Rcv,
    acks: seq<Ack>,
    rmtWnd: u16,
    rtt: Rtt,
    cong: Cong,
    probe: Probe,
    clock: Clock,
    xmit: u32,
    dead: bool
  )

  /** A new endpoint, with its datagram size set before any data is queued. */
  function Create(conv: u32, mtu: u32): Endpoint
    requires mtu >= OVERHEAD
  {
    Endpoint(
      Config(conv, mtu, mtu - OVERHEAD, DEFAULT_WINDOW, false, false, 0, false, DEFAULT_DEAD_LINK,
             DEFAULT_INTERVAL),
      Snd(0, 0, [], []),
      Rcv(0, DEFAULT_WINDOW, [], []),
      [],
      DEFAULT_WINDOW,
      Rtt(0, 0, RTO_DEFAULT, RTO_MIN, 0),
      Cong(0, 0, DEFAULT_THRESHOLD),
      Probe(false, false, 0, 0),
      Clock(0, DEFAULT_INTERVAL, false),
      0,
      false)
  }
}
