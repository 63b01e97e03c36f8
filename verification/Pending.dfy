/**
  One piece under download, as a value: the block tiling, the three lists the scheduler and
  the receivers move blocks between, and what each move keeps.
 */
module Pending {
  import opened Base
  import opened Messages

  /** A request that was sent; `send` is the clock reading, in nanoseconds. */
  datatype Timed = Timed(request: Request, send: int, received: bool)

  /** History of one piece: every send, time-out and retry of a block, and the blocks accepted. */
  datatype Log = Log(
    sent: seq<Request>, expired: seq<Request>, retried: seq<Request>, accepted: nat)

  datatype PieceState = PieceState(
    index: int, size: int, downloaded: int,
    received: seq<Piece>, pending: seq<Request>, inFlight: seq<Timed>, log: Log)

  /** A request older than this goes back to pending. */
  const TIMEOUT: int := 8 * 1_000_000_000

  // ---------- Starting a piece ----------

  /** The requests for the bytes from `p` on, in 16 KiB blocks with a shorter last one. */
  function Tiling(index: int, p: int, size: int): seq<Request>
    requires 0 <= p
    decreases size - p
  {
    if p >= size then []
    else
      var next := if size < p + REQUEST_SIZE then size - p else REQUEST_SIZE;
      [Request(index, ToU32(p), ToU32(next))] + Tiling(index, p + next, size)
  }

  function Start(index: int, size: int): PieceState {
    PieceState(index, size, 0, [], Tiling(index, 0, size), [],
                 Log([], [], [], 0))
  }

  // ---------- The scheduler's sweep ----------

  predicate Late(t: Timed, now: int) {
    !t.received && now - t.send > TIMEOUT
  }

  /** The requests among the first `n` sent ones that are late at `clock`. */
  function Expired(sent: seq<Timed>, clock: nat -> int, n: nat): seq<Request>
    requires n <= |sent|
  {
    if n == 0 then []
    else if Late(sent[n - 1], clock(n - 1)) then Expired(sent, clock, n - 1) + [sent[n - 1].request]
    else Expired(sent, clock, n - 1)
  }

  function Kept(sent: seq<Timed>, clock: nat -> int, n: nat): seq<Timed>
    requires n <= |sent|
  {
    if n == 0 then []
    else if Late(sent[n - 1], clock(n - 1)) then Kept(sent, clock, n - 1)
    else Kept(sent, clock, n - 1) + [sent[n - 1]]
  }

  function TimeOut(p: PieceState, clock: nat -> int): PieceState {
    var late := Expired(p.inFlight, clock, |p.inFlight|);
    p.(pending := p.pending + late,
       inFlight := Kept(p.inFlight, clock, |p.inFlight|),
       log := p.log.(expired := p.log.expired + late))
  }

  /** The first `n` pending requests a peer accepted, stamped with the time they were sent. */
  function Sent(pending: seq<Request>, ok: nat -> bool, clock: nat -> int, n: nat): seq<Timed>
    requires n <= |pending|
  {
    if n == 0 then []
    else if ok(n - 1) then Sent(pending, ok, clock, n - 1) + [Timed(pending[n - 1], clock(n - 1), false)]
    else Sent(pending, ok, clock, n - 1)
  }

  function Unsent(pending: seq<Request>, ok: nat -> bool, n: nat): seq<Request>
    requires n <= |pending|
  {
    if n == 0 then []
    else if ok(n - 1) then Unsent(pending, ok, n - 1)
    else Unsent(pending, ok, n - 1) + [pending[n - 1]]
  }

  function Send(p: PieceState, ok: nat -> bool, clock: nat -> int): PieceState {
    var sent := Sent(p.pending, ok, clock, |p.pending|);
    p.(pending := Unsent(p.pending, ok, |p.pending|),
       inFlight := p.inFlight + sent,
       log := p.log.(sent := p.log.sent + Requests(sent)))
  }

  /** What the adversary decides in one sweep: clock readings, and which sends go through. */
  datatype Sweep = Sweep(checked: nat -> int, ok: nat -> bool, clock: nat -> int)

  function SweepPiece(p: PieceState, w: Sweep): PieceState {
    Send(TimeOut(p, w.checked), w.ok, w.clock)
  }

  // ---------- Receiving a block ----------

  /** Position of the first sent request equal to `r`, or the length if there is none. */
  function Find(sent: seq<Timed>, r: Request): (k: nat)
    ensures k <= |sent|
    ensures k < |sent| ==> sent[k].request == r
    ensures forall j :: 0 <= j < k ==> sent[j].request != r
  {
    if |sent| == 0 then 0
    else if sent[0].request == r then 0
    else 1 + Find(sent[1..], r)
  }

  predicate SameBlock(a: Piece, b: Piece) {
    a.begin == b.begin && a.index == b.index && |a.block| == |b.block|
  }

  datatype Receipt = Untracked | Duplicate | Overflow | Stored(piece: PieceState)

  function Receive(p: PieceState, m: Piece): Receipt {
    var k := Find(p.inFlight, Answered(m));
    if k == |p.inFlight| then Untracked
    else if exists o <- p.received :: SameBlock(o, m) then Duplicate
    else if p.downloaded + |m.block| > p.size then Overflow
    else Stored(p.(downloaded := p.downloaded + |m.block|,
                   received := p.received + [m],
                   inFlight := p.inFlight[k := p.inFlight[k].(received := true)],
                   log := p.log.(accepted := p.log.accepted + 1)))
  }

  /** `None` is the source's "expected no pending requests" error, on which the caller panics. */
  function Retry(p: PieceState): Option<PieceState> {
    if p.pending != [] then None
    else
      var again := Requests(p.inFlight);
      Some(p.(pending := again, inFlight := [], received := [], downloaded := 0,
              log := p.log.(retried := p.log.retried + again)))
  }

  // ---------- Vocabulary of the invariant ----------

  function Requests(sent: seq<Timed>): seq<Request> {
    seq(|sent|, k requires 0 <= k < |sent| => sent[k].request)
  }

  function Answers(received: seq<Piece>): seq<Request> {
    seq(|received|, k requires 0 <= k < |received| => Answered(received[k]))
  }

  /** The sent requests whose block has arrived, or has not. */
  function Flagged(sent: seq<Timed>, value: bool): seq<Request> {
    if |sent| == 0 then []
    else
      var t, before := sent[|sent| - 1], Flagged(sent[..|sent| - 1], value);
      if t.received == value then before + [t.request] else before
  }

  function ByteCount(rs: seq<Request>): int {
    if |rs| == 0 then 0 else ByteCount(rs[..|rs| - 1]) + rs[|rs| - 1].length
  }

  /** How often block `r` is pending or in flight. */
  function Held(p: PieceState, r: Request): nat {
    Count(p.pending, r) + Count(Requests(p.inFlight), r)
  }

  /** The sends of block `r` that a time-out, a retry or the block still in flight accounts for. */
  function Explained(p: PieceState, r: Request): nat {
    Count(p.log.expired, r) + Count(p.log.retried, r) + Count(Requests(p.inFlight), r)
  }

  /**
    The invariant of a started piece while its lock is free. Pending and in-flight requests
    together are the tiling, each block once; received blocks are, one to one, the in-flight
    requests flagged as received; and the history accounts for every block in flight.
   */
  ghost predicate Conserved(p: PieceState) {
    && 0 < p.size < U32
    && (forall r :: Held(p, r) == Count(Tiling(p.index, 0, p.size), r))
    && SameElements(Answers(p.received), Flagged(p.inFlight, true))
    && (forall m <- p.received :: |m.block| < U32)
    && p.downloaded == ByteCount(Answers(p.received))
    && (forall r :: Count(p.log.sent, r) == Explained(p, r))
    && Work(p) + |p.log.sent| + p.log.accepted
       == 2 * |Tiling(p.index, 0, p.size)| + |p.log.expired| + 2 * |p.log.retried|
  }

  /** Sends and receipts still to come if nothing times out and nothing is retried. */
  function Work(p: PieceState): nat {
    2 * |p.pending| + |Flagged(p.inFlight, false)|
  }

  predicate Complete(p: PieceState) {
    p.downloaded == p.size
  }
}
