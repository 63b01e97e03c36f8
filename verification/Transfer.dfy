/** From a seeder's verified file to a leecher's verified file, through requests and replies. */
module Transfer {
  import opened Base
  import opened Messages
  import opened Pending
  import opened Conservation
  import opened Reassembly
  import opened Storage
  import W = Wire

  /** What a seeder holding `file` writes back when it reads `wire`. */
  function Serve(file: Bytes, wire: Bytes): Option<Bytes> {
    match W.Identify(wire)
    case Truncated => None
    case Unknown(_, _) => None
    case Got(raw, _) =>
      match W.Parse(raw)
      case Some(Request(r)) =>
        if r.begin < 0 || r.length < 0 then None
        else
          (match ReadRequest(Some(file), r)
           case Block(data) => Some(W.Serialize(W.Piece(Piece(r.index, r.begin, data))))
           case _ => None)
      case _ => None
  }

  /** What a leecher makes of the answer. */
  function Accept(wire: Bytes): Option<Piece> {
    match W.Identify(wire)
    case Truncated => None
    case Unknown(_, _) => None
    case Got(raw, _) =>
      match W.Parse(raw)
      case Some(Piece(p)) => Some(p)
      case _ => None
  }

  /** A request sent, answered and received, with other traffic behind it both ways. */
  function Fetch(file: Bytes, r: Request, there: Bytes, back: Bytes): Option<Piece> {
    match Serve(file, W.Serialize(W.Request(r)) + there)
    case None => None
    case Some(reply) => Accept(reply + back)
  }

  function Slice(file: Bytes, r: Request): Piece
    requires 0 <= r.begin && 0 <= r.length && r.begin + r.length <= |file|
  {
    Piece(r.index, r.begin, file[r.begin..r.begin + r.length])
  }

  /**
    Every block of the tiling survives the round trip: it passes validation, lies in the file,
    is not rejected as too short, and comes back as the bytes of the file under its request.
   */
  lemma FetchReturnsSlice(file: Bytes, index: int, r: Request, there: Bytes, back: Bytes)
    requires 0 < |file| < U32 && InU32(index) && r in Tiling(index, 0, |file|)
    ensures InU32(r.begin) && InU32(r.length) && r.begin + r.length <= |file| && Validate(r)
    ensures Fetch(file, r, there, back) == Some(Slice(file, r))
    ensures Answered(Slice(file, r)) == r && Honest(Slice(file, r), file)
  {
    hide W.Identify, W.Parse, W.Serialize, W.Payload, ReadRequest, Tiling;
    BlockShape(file, index, r);
    var reply := Slice(file, r);
    AskIsRead(r, there);
    ReadRequestExact(file, r);
    ReplyIsRead(reply, back);
  }

  lemma BlockShape(file: Bytes, index: int, r: Request)
    requires 0 < |file| < U32 && r in Tiling(index, 0, |file|)
    ensures r.index == index && InU32(r.begin) && 0 < r.length && r.begin + r.length <= |file| && Validate(r)
  {
    TilingShape(index, 0, |file|);
  }

  lemma AskIsRead(r: Request, rest: Bytes)
    requires InU32(r.index) && InU32(r.begin) && InU32(r.length) && Validate(r)
    ensures var read := W.Identify(W.Serialize(W.Request(r)) + rest);
            read.Got? && W.Parse(read.raw) == Some(W.Request(r))
  {
    W.ItemIsRead(W.Known(W.Request(r)), rest);
    W.ParseExact(W.Request(r));
  }

  lemma ReplyIsRead(p: Piece, rest: Bytes)
    requires InU32(p.index) && InU32(p.begin) && 0 < |p.block| <= REQUEST_SIZE
    ensures var read := W.Identify(W.Serialize(W.Piece(p)) + rest);
            read.Got? && W.Parse(read.raw) == Some(W.Piece(p))
  {
    W.ItemIsRead(W.Known(W.Piece(p)), rest);
    W.ParseExact(W.Piece(p));
  }

  // ---------- One piece, any order, any duplicates ----------

  function AbsorbAll(p: PieceState, ms: seq<Piece>): PieceState {
    if |ms| == 0 then p else Absorb(AbsorbAll(p, ms[..|ms| - 1]), ms[|ms| - 1])
  }

  lemma {:induction false} AbsorbAllHonest(p: PieceState, ms: seq<Piece>, file: Bytes)
    requires Conserved(p) && forall m <- p.received :: Honest(m, file)
    requires forall m <- ms :: |m.block| < U32 && Honest(m, file)
    ensures var q := AbsorbAll(p, ms);
            && Conserved(q) && q.pending == p.pending && q.index == p.index && q.size == p.size
            && (forall m <- q.received :: Honest(m, file))
            && (forall m <- ms :: Answered(m) !in Flagged(q.inFlight, false))
            && forall r <- Flagged(q.inFlight, false) :: r in Flagged(p.inFlight, false)
  {
    hide Conserved, Honest;
    if |ms| > 0 {
      var m := ms[|ms| - 1];
      AbsorbAllHonest(p, ms[..|ms| - 1], file);
      AbsorbSettles(AbsorbAll(p, ms[..|ms| - 1]), m);
      assert ms == ms[..|ms| - 1] + [m];
    }
  }

  /** A fresh piece after a sweep in which every send went through. */
  function AllRequested(index: int, size: int, clock: nat -> int): PieceState {
    Send(Start(index, size), (k: nat) => true, clock)
  }

  lemma {:induction false} NoneUnsent(pending: seq<Request>, n: nat)
    requires n <= |pending|
    ensures Unsent(pending, (k: nat) => true, n) == []
  {
    if n > 0 {
      NoneUnsent(pending, n - 1);
    }
  }

  /** `m` is what the leecher makes of the seeder's answer to a request of the tiling. */
  ghost predicate IsReply(file: Bytes, index: int, m: Piece) {
    exists r :: r in Tiling(index, 0, |file|) && Fetch(file, r, [], []) == Some(m)
  }

  /**
    End to end: request a whole piece from a seeder, deliver its replies in any order and as
    often as you like as long as none is missing, and the leecher rebuilds the seeder's file.
   */
  lemma EndToEnd(index: int, file: Bytes, clock: nat -> int, ms: seq<Piece>)
    requires InU32(index) && 0 < |file| < U32
    requires forall m <- ms :: IsReply(file, index, m)
    requires forall r <- Tiling(index, 0, |file|) :: Fetch(file, r, [], []) == None || Fetch(file, r, [], []).value in ms
    ensures var q := AbsorbAll(AllRequested(index, |file|, clock), ms);
            Complete(q) && Assemble(q) == file
  {
    hide Conserved, Honest, Fetch, Start, Tiling, Complete, AllRequested;
    var tiling, p := Tiling(index, 0, |file|), AllRequested(index, |file|, clock);
    forall m <- ms
      ensures Honest(m, file) && |m.block| < U32
    {
      var r :| r in tiling && Fetch(file, r, [], []) == Some(m);
      FetchReturnsSlice(file, index, r, [], []);
    }
    Requested(index, |file|, clock);
    AbsorbAllHonest(p, ms, file);
    var q := AbsorbAll(p, ms);
    forall r <- tiling
      ensures r !in Flagged(q.inFlight, false)
    {
      FetchReturnsSlice(file, index, r, [], []);
      assert Slice(file, r) in ms;
    }
    NothingAwaited(q, tiling);
    HonestBlocksRebuild(q, file);
  }

  lemma Requested(index: int, size: int, clock: nat -> int)
    requires 0 < size < U32
    ensures var p := AllRequested(index, size, clock);
            Conserved(p) && p.pending == [] && p.received == [] && p.index == index && p.size == size
  {
    StartConserves(index, size);
    SendConserves(Start(index, size), (k: nat) => true, clock);
    NoneUnsent(Start(index, size).pending, |Start(index, size).pending|);
  }

  lemma NothingAwaited(q: PieceState, tiling: seq<Request>)
    requires Conserved(q) && q.pending == [] && tiling == Tiling(q.index, 0, q.size)
    requires forall r <- tiling :: r !in Flagged(q.inFlight, false)
    ensures Complete(q)
  {
    Accounting(q);
    if Flagged(q.inFlight, false) != [] {
      var r := Flagged(q.inFlight, false)[0];
      FlaggedMember(q.inFlight, false, r);
      var k :| 0 <= k < |q.inFlight| && q.inFlight[k].request == r;
      assert Requests(q.inFlight)[k] == r;
      FromTiling(q, r);
    }
  }
}
