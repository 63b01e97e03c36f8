/** What the moves of `Pending` keep: block conservation, byte accounting, request counting. */
module Conservation {
  import opened Base
  import opened Messages
  import opened Pending

  // ---------- The tiling ----------

  /** Block `k` starts at `16384 * k`, and the blocks cover `[p, size)` without gap or overlap. */
  lemma {:induction false} TilingShape(index: int, p: int, size: int)
    requires 0 <= p <= size < U32
    ensures var t := Tiling(index, p, size);
            && (forall k :: 0 <= k < |t| ==>
                 && t[k].index == index
                 && t[k].begin == p + REQUEST_SIZE * k
                 && t[k].length == Min(REQUEST_SIZE, size - t[k].begin)
                 && 0 < t[k].length && t[k].begin + t[k].length <= size)
            && p + REQUEST_SIZE * |t| < size + REQUEST_SIZE
            && size <= p + REQUEST_SIZE * |t|
    decreases size - p
  {
    if p < size {
      var next := if size < p + REQUEST_SIZE then size - p else REQUEST_SIZE;
      TilingShape(index, p + next, size);
      var t, rest := Tiling(index, p, size), Tiling(index, p + next, size);
      assert t == [Request(index, p, next)] + rest;
      if p + next == size {
        assert rest == [];
      }
      forall k | 0 <= k < |t|
        ensures && t[k].index == index && t[k].begin == p + REQUEST_SIZE * k
                && t[k].length == Min(REQUEST_SIZE, size - t[k].begin)
                && 0 < t[k].length && t[k].begin + t[k].length <= size
      {
        if k > 0 {
          assert t[k] == rest[k - 1];
        }
      }
    }
  }

  lemma ByteCountOne(r: Request)
    ensures ByteCount([r]) == r.length
  {
  }

  lemma {:induction false} TilingBytes(index: int, p: int, size: int)
    requires 0 <= p <= size < U32
    ensures ByteCount(Tiling(index, p, size)) == size - p
    decreases size - p
  {
    if p < size {
      var next := if size < p + REQUEST_SIZE then size - p else REQUEST_SIZE;
      TilingBytes(index, p + next, size);
      hide ByteCount;
      ByteCountSplit([Request(index, p, next)], Tiling(index, p + next, size));
      ByteCountOne(Request(index, p, next));
    }
  }

  lemma {:induction false} DistinctOnce(t: seq<Request>, r: Request)
    requires forall i, j :: 0 <= i < j < |t| ==> t[i] != t[j]
    ensures Count(t, r) <= 1
  {
    if |t| > 0 {
      var m := |t| - 1;
      DistinctOnce(t[..m], r);
      CountMember(t[..m], r);
    }
  }

  // ---------- Byte counts and flags ----------

  lemma {:induction false} ByteCountSplit(a: seq<Request>, b: seq<Request>)
    ensures ByteCount(a + b) == ByteCount(a) + ByteCount(b)
  {
    if |b| == 0 {
      assert a + b == a;
    } else {
      assert (a + b)[..|a + b| - 1] == a + b[..|b| - 1];
      ByteCountSplit(a, b[..|b| - 1]);
    }
  }

  /** The byte count of a list does not depend on its order. */
  lemma {:induction false} ByteCountOrder(a: seq<Request>, b: seq<Request>)
    requires SameElements(a, b)
    ensures ByteCount(a) == ByteCount(b)
    decreases |a|
  {
    SameElementsLength(a, b);
    if |a| > 0 {
      var m := |a| - 1;
      assert Count(a, a[m]) == Count(b, a[m]);
      CountMember(a, a[m]);
      var j := RemoveOne(b, a[m]);
      forall y
        ensures Count(a[..m], y) == Count(b[..j] + b[j + 1..], y)
      {
        assert Count(a, y) == Count(b, y);
      }
      ByteCountOrder(a[..m], b[..j] + b[j + 1..]);
      ByteCountSplit(b[..j], b[j + 1..]);
      assert b == (b[..j] + [b[j]]) + b[j + 1..];
      ByteCountSplit(b[..j] + [b[j]], b[j + 1..]);
      ByteCountSplit(b[..j], [b[j]]);
    }
  }

  lemma {:induction false} PositiveBytes(a: seq<Request>)
    requires forall r <- a :: 0 < r.length
    ensures 0 <= ByteCount(a)
    ensures ByteCount(a) == 0 ==> a == []
    ensures forall r <- a :: r.length <= ByteCount(a)
  {
    if |a| > 0 {
      PositiveBytes(a[..|a| - 1]);
      assert a == a[..|a| - 1] + [a[|a| - 1]];
    }
  }

  lemma FlaggedSnoc(s: seq<Timed>, t: Timed)
    ensures Flagged(s + [t], true) == if t.received then Flagged(s, true) + [t.request] else Flagged(s, true)
    ensures Flagged(s + [t], false) == if t.received then Flagged(s, false) else Flagged(s, false) + [t.request]
    ensures Requests(s + [t]) == Requests(s) + [t.request]
  {
    assert (s + [t])[..|s|] == s;
  }

  lemma {:induction false} FlaggedSplit(a: seq<Timed>, b: seq<Timed>, value: bool)
    ensures Flagged(a + b, value) == Flagged(a, value) + Flagged(b, value)
  {
    if |b| == 0 {
      assert a + b == a;
    } else {
      assert (a + b)[..|a + b| - 1] == a + b[..|b| - 1];
      FlaggedSplit(a, b[..|b| - 1], value);
    }
  }

  /** Every in-flight request is either flagged or not. */
  lemma {:induction false} FlaggedPartition(s: seq<Timed>, r: Request)
    ensures Count(Requests(s), r) == Count(Flagged(s, true), r) + Count(Flagged(s, false), r)
    ensures |s| == |Flagged(s, true)| + |Flagged(s, false)|
  {
    if |s| > 0 {
      var was, t := s[..|s| - 1], s[|s| - 1];
      assert s == was + [t];
      FlaggedPartition(was, r);
      FlaggedSnoc(was, t);
      CountSnoc(Requests(was), t.request, r);
      CountSnoc(Flagged(was, t.received), t.request, r);
    }
  }

  lemma {:induction false} FlaggedMember(s: seq<Timed>, value: bool, r: Request)
    requires r in Flagged(s, value)
    ensures exists k :: 0 <= k < |s| && s[k].request == r && s[k].received == value
  {
    var m := |s| - 1;
    if !(s[m].received == value && s[m].request == r) {
      FlaggedMember(s[..m], value, r);
    }
  }

  lemma {:induction false} FlaggedHas(s: seq<Timed>, k: nat)
    requires k < |s|
    ensures s[k].request in Flagged(s, s[k].received)
  {
    if k < |s| - 1 {
      FlaggedHas(s[..|s| - 1], k);
    }
  }

  /** Flagging request `k` moves exactly it from the unreceived to the received ones. */
  lemma {:induction false} FlaggedUpdate(s: seq<Timed>, k: nat, r: Request)
    requires k < |s| && !s[k].received
    ensures var t := s[k := s[k].(received := true)];
            && Requests(t) == Requests(s)
            && Count(Flagged(t, true), r) == Count(Flagged(s, true), r) + (if r == s[k].request then 1 else 0)
            && |Flagged(t, false)| + 1 == |Flagged(s, false)|
  {
    var m, t := |s| - 1, s[k := s[k].(received := true)];
    var was, last := s[..m], s[m];
    assert s == was + [last];
    FlaggedSnoc(was, last);
    if k == m {
      assert t == was + [t[m]];
      FlaggedSnoc(was, t[m]);
      CountSnoc(Flagged(was, true), last.request, r);
    } else {
      var u := was[k := s[k].(received := true)];
      assert t == u + [last];
      FlaggedUpdate(was, k, r);
      FlaggedSnoc(u, last);
      CountSnoc(Flagged(u, true), last.request, r);
      CountSnoc(Flagged(was, true), last.request, r);
    }
  }

  // ---------- Consequences of the invariant ----------

  /** Only blocks of the piece are pending or in flight, once each, and all pass validation. */
  lemma FromTiling(p: PieceState, r: Request)
    requires Conserved(p)
    ensures Held(p, r) <= 1
    ensures r in p.pending || r in Requests(p.inFlight) ==>
              && r in Tiling(p.index, 0, p.size)
              && r.index == p.index && 0 <= r.begin && 0 < r.length && Validate(r) && r.begin + r.length <= p.size
  {
    var tiling := Tiling(p.index, 0, p.size);
    TilingShape(p.index, 0, p.size);
    DistinctOnce(tiling, r);
    assert Held(p, r) == Count(tiling, r);
    CountMember(p.pending, r);
    CountMember(Requests(p.inFlight), r);
    CountMember(tiling, r);
  }

  lemma FlaggedPositive(p: PieceState, value: bool)
    requires Conserved(p)
    ensures forall r <- Flagged(p.inFlight, value) :: 0 < r.length
  {
    forall r <- Flagged(p.inFlight, value)
      ensures 0 < r.length
    {
      FlaggedMember(p.inFlight, value, r);
      var k :| 0 <= k < |p.inFlight| && p.inFlight[k].request == r;
      assert Requests(p.inFlight)[k] == r;
      FromTiling(p, r);
    }
  }

  /** Bytes received, bytes awaited and bytes pending make up the piece. */
  lemma Accounting(p: PieceState)
    requires Conserved(p)
    ensures p.downloaded + ByteCount(p.pending) + ByteCount(Flagged(p.inFlight, false)) == p.size
    ensures 0 <= p.downloaded <= p.size
    ensures forall r <- Flagged(p.inFlight, false) :: p.downloaded + r.length <= p.size
    ensures Complete(p) <==> p.pending == [] && Flagged(p.inFlight, false) == []
  {
    AccountingSum(p);
    forall r <- p.pending
      ensures 0 < r.length
    {
      FromTiling(p, r);
    }
    FlaggedPositive(p, true);
    FlaggedPositive(p, false);
    PositiveBytes(p.pending);
    PositiveBytes(Flagged(p.inFlight, true));
    PositiveBytes(Flagged(p.inFlight, false));
  }

  lemma AccountingSum(p: PieceState)
    requires Conserved(p)
    ensures p.downloaded == ByteCount(Flagged(p.inFlight, true))
    ensures p.downloaded + ByteCount(p.pending) + ByteCount(Flagged(p.inFlight, false)) == p.size
  {
    var tiling, received, awaited := Tiling(p.index, 0, p.size), Flagged(p.inFlight, true), Flagged(p.inFlight, false);
    forall r
      ensures Count(p.pending + received + awaited, r) == Count(tiling, r)
    {
      FlaggedPartition(p.inFlight, r);
      CountSplit(p.pending + received, awaited, r);
      CountSplit(p.pending, received, r);
      assert Held(p, r) == Count(tiling, r);
    }
    ByteCountOrder(p.pending + received + awaited, tiling);
    ByteCountOrder(Answers(p.received), received);
    TilingBytes(p.index, 0, p.size);
    ByteCountSplit(p.pending + received, awaited);
    ByteCountSplit(p.pending, received);
  }

  /** When all bytes are in, nothing is pending and every block of the tiling has arrived once. */
  lemma CompleteIsQuiet(p: PieceState)
    requires Conserved(p) && Complete(p)
    ensures p.pending == [] && (forall t <- p.inFlight :: t.received)
    ensures SameElements(Answers(p.received), Tiling(p.index, 0, p.size))
    ensures SameElements(Requests(p.inFlight), Tiling(p.index, 0, p.size))
    ensures Work(p) == 0 && |p.inFlight| == |Tiling(p.index, 0, p.size)|
  {
    Accounting(p);
    forall t <- p.inFlight
      ensures t.received
    {
      var k :| 0 <= k < |p.inFlight| && p.inFlight[k] == t;
      FlaggedHas(p.inFlight, k);
    }
    var tiling := Tiling(p.index, 0, p.size);
    forall r
      ensures Count(Requests(p.inFlight), r) == Count(tiling, r)
      ensures Count(Answers(p.received), r) == Count(tiling, r)
    {
      FlaggedPartition(p.inFlight, r);
      assert Held(p, r) == Count(tiling, r);
      assert Count(Answers(p.received), r) == Count(Flagged(p.inFlight, true), r);
    }
    SameElementsLength(Requests(p.inFlight), tiling);
  }

  // ---------- Every move keeps the invariant ----------

  lemma StartConserves(index: int, size: int)
    requires 0 < size < U32
    ensures Conserved(Start(index, size)) && !Complete(Start(index, size))
  {
  }

  lemma {:induction false} TimeOutMoves(sent: seq<Timed>, clock: nat -> int, n: nat, r: Request)
    requires n <= |sent|
    ensures var expired, kept := Expired(sent, clock, n), Kept(sent, clock, n);
            && Count(expired, r) + Count(Requests(kept), r) == Count(Requests(sent[..n]), r)
            && Flagged(kept, true) == Flagged(sent[..n], true)
            && |expired| + |Flagged(kept, false)| == |Flagged(sent[..n], false)|
  {
    if n > 0 {
      TimeOutMoves(sent, clock, n - 1, r);
      var t, was, expired, kept := sent[n - 1], sent[..n - 1], Expired(sent, clock, n - 1), Kept(sent, clock, n - 1);
      assert sent[..n] == was + [t];
      FlaggedSnoc(was, t);
      FlaggedSnoc(kept, t);
      CountSnoc(Requests(was), t.request, r);
      CountSnoc(Requests(kept), t.request, r);
      CountSnoc(expired, t.request, r);
    }
  }

  lemma TimeOutConserves(p: PieceState, clock: nat -> int)
    requires Conserved(p)
    ensures var q := TimeOut(p, clock);
            && Conserved(q) && q.downloaded == p.downloaded
            && Work(q) == Work(p) + |Expired(p.inFlight, clock, |p.inFlight|)|
  {
    var late, q := Expired(p.inFlight, clock, |p.inFlight|), TimeOut(p, clock);
    assert p.inFlight[..|p.inFlight|] == p.inFlight;
    TimeOutMoves(p.inFlight, clock, |p.inFlight|, Request(0, 0, 0));
    forall r
      ensures Held(q, r) == Count(Tiling(p.index, 0, p.size), r) && Count(q.log.sent, r) == Explained(q, r)
    {
      TimeOutMoves(p.inFlight, clock, |p.inFlight|, r);
      CountSplit(p.pending, late, r);
      CountSplit(p.log.expired, late, r);
      assert Held(p, r) == Count(Tiling(p.index, 0, p.size), r) && Count(p.log.sent, r) == Explained(p, r);
    }
  }

  lemma {:induction false} SendMoves(pending: seq<Request>, ok: nat -> bool, clock: nat -> int, n: nat, r: Request)
    requires n <= |pending|
    ensures var sent, unsent := Sent(pending, ok, clock, n), Unsent(pending, ok, n);
            && Count(unsent, r) + Count(Requests(sent), r) == Count(pending[..n], r)
            && |sent| + |unsent| == n
  {
    if n > 0 {
      SendMoves(pending, ok, clock, n - 1, r);
      var was, sent, unsent := pending[..n - 1], Sent(pending, ok, clock, n - 1), Unsent(pending, ok, n - 1);
      var next, t := pending[n - 1], Timed(pending[n - 1], clock(n - 1), false);
      assert pending[..n] == was + [next];
      CountSnoc(was, next, r);
      if ok(n - 1) {
        FlaggedSnoc(sent, t);
        CountSnoc(Requests(sent), next, r);
      } else {
        CountSnoc(unsent, next, r);
      }
    }
  }

  lemma {:induction false} SentAreUnflagged(pending: seq<Request>, ok: nat -> bool, clock: nat -> int, n: nat)
    requires n <= |pending|
    ensures forall t <- Sent(pending, ok, clock, n) :: !t.received
  {
    if n > 0 {
      SentAreUnflagged(pending, ok, clock, n - 1);
    }
  }

  lemma {:induction false} NoneFlagged(s: seq<Timed>)
    requires forall t <- s :: !t.received
    ensures Flagged(s, true) == [] && |Flagged(s, false)| == |s|
  {
    if |s| > 0 {
      NoneFlagged(s[..|s| - 1]);
    }
  }

  lemma SentUnflagged(pending: seq<Request>, ok: nat -> bool, clock: nat -> int, n: nat)
    requires n <= |pending|
    ensures var sent := Sent(pending, ok, clock, n);
            Flagged(sent, true) == [] && |Flagged(sent, false)| == |sent|
  {
    SentAreUnflagged(pending, ok, clock, n);
    NoneFlagged(Sent(pending, ok, clock, n));
  }

  lemma SendConserves(p: PieceState, ok: nat -> bool, clock: nat -> int)
    requires Conserved(p)
    ensures var q := Send(p, ok, clock);
            && Conserved(q) && q.downloaded == p.downloaded
            && Work(q) + |Sent(p.pending, ok, clock, |p.pending|)| == Work(p)
  {
    var sent, q := Sent(p.pending, ok, clock, |p.pending|), Send(p, ok, clock);
    assert p.pending[..|p.pending|] == p.pending;
    assert Requests(p.inFlight + sent) == Requests(p.inFlight) + Requests(sent);
    FlaggedSplit(p.inFlight, sent, true);
    FlaggedSplit(p.inFlight, sent, false);
    SendMoves(p.pending, ok, clock, |p.pending|, Request(0, 0, 0));
    SentUnflagged(p.pending, ok, clock, |p.pending|);
    assert Flagged(q.inFlight, true) == Flagged(p.inFlight, true);
    assert |Requests(sent)| == |sent|;
    forall r
      ensures Held(q, r) == Count(Tiling(p.index, 0, p.size), r) && Count(q.log.sent, r) == Explained(q, r)
    {
      SendMoves(p.pending, ok, clock, |p.pending|, r);
      CountSplit(Requests(p.inFlight), Requests(sent), r);
      CountSplit(p.log.sent, Requests(sent), r);
      assert Held(p, r) == Count(Tiling(p.index, 0, p.size), r) && Count(p.log.sent, r) == Explained(p, r);
    }
  }

  /** The number of late requests found, and of sends that went through, in one sweep. */
  function TimeOuts(p: PieceState, w: Sweep): nat {
    |Expired(p.inFlight, w.checked, |p.inFlight|)|
  }

  function Sends(p: PieceState, w: Sweep): nat {
    var q := TimeOut(p, w.checked);
    |Sent(q.pending, w.ok, w.clock, |q.pending|)|
  }

  lemma SweepConserves(p: PieceState, w: Sweep)
    requires Conserved(p)
    ensures var q := SweepPiece(p, w);
            && Conserved(q) && q.downloaded == p.downloaded && q.received == p.received
            && q.index == p.index && q.size == p.size
            && Work(q) + Sends(p, w) == Work(p) + TimeOuts(p, w)
  {
    TimeOutConserves(p, w.checked);
    SendConserves(TimeOut(p, w.checked), w.ok, w.clock);
  }

  lemma FlaggedIsAnswered(p: PieceState, r: Request)
    requires Conserved(p)
    ensures r in Flagged(p.inFlight, true) <==> exists o <- p.received :: Answered(o) == r
  {
    var answers, flagged := Answers(p.received), Flagged(p.inFlight, true);
    CountMember(flagged, r);
    CountMember(answers, r);
    assert Count(answers, r) == Count(flagged, r);
    if r in answers {
      var j :| 0 <= j < |answers| && answers[j] == r;
      assert p.received[j] in p.received;
    }
    if o :| o in p.received && Answered(o) == r {
      var j :| 0 <= j < |p.received| && p.received[j] == o;
      assert answers[j] == r;
    }
  }

  /** No request is in flight twice. */
  lemma InFlightOnce(p: PieceState, k: nat, l: nat)
    requires Conserved(p) && k < l < |p.inFlight|
    ensures p.inFlight[k].request != p.inFlight[l].request
  {
    var rs := Requests(p.inFlight);
    FromTiling(p, rs[k]);
    if rs[k] == rs[l] {
      CountTwice(rs, k, l);
    }
  }

  /** A block found in flight is a duplicate exactly when its request is already flagged. */
  lemma DuplicateIffFlagged(p: PieceState, m: Piece)
    requires Conserved(p) && |m.block| < U32
    requires Find(p.inFlight, Answered(m)) < |p.inFlight|
    ensures p.inFlight[Find(p.inFlight, Answered(m))].received <==> exists o <- p.received :: SameBlock(o, m)
    ensures !p.inFlight[Find(p.inFlight, Answered(m))].received <==> Answered(m) in Flagged(p.inFlight, false)
  {
    var r := Answered(m);
    var k := Find(p.inFlight, r);
    FlaggedHas(p.inFlight, k);
    FlaggedIsAnswered(p, r);
    forall o <- p.received
      ensures SameBlock(o, m) <==> Answered(o) == r
    {
    }
    var other := !p.inFlight[k].received;
    if r in Flagged(p.inFlight, other) {
      FlaggedMember(p.inFlight, other, r);
      var l :| 0 <= l < |p.inFlight| && p.inFlight[l].request == r && p.inFlight[l].received == other;
      InFlightOnce(p, if k < l then k else l, if k < l then l else k);
    }
  }

  /**
    Receiving keeps the invariant, never finds more data than expected, and stores a block
    exactly when its request is in flight and not yet answered.
   */
  lemma ReceiveConserves(p: PieceState, m: Piece)
    requires Conserved(p) && |m.block| < U32
    ensures !Receive(p, m).Overflow?
    ensures Receive(p, m).Stored? <==> Answered(m) in Flagged(p.inFlight, false)
    ensures Receive(p, m).Stored? ==>
              var q := Receive(p, m).piece;
              && Conserved(q) && m.index == p.index && q.downloaded == p.downloaded + |m.block|
              && 0 < |m.block| && Work(q) + 1 == Work(p)
              && q.index == p.index && q.size == p.size && q.received == p.received + [m]
  {
    var r := Answered(m);
    var k := Find(p.inFlight, r);
    if k == |p.inFlight| {
      if r in Flagged(p.inFlight, false) {
        FlaggedMember(p.inFlight, false, r);
      }
    } else {
      DuplicateIffFlagged(p, m);
      if !p.inFlight[k].received {
        Accounting(p);
        StoreConserves(p, m);
      }
    }
  }

  lemma StoreConserves(p: PieceState, m: Piece)
    requires Conserved(p) && |m.block| < U32
    requires Receive(p, m).Stored? && !p.inFlight[Find(p.inFlight, Answered(m))].received
    ensures var q := Receive(p, m).piece;
            && Conserved(q) && m.index == p.index && q.downloaded == p.downloaded + |m.block|
            && 0 < |m.block| && Work(q) + 1 == Work(p)
  {
    hide Count, Flagged, ByteCount, Tiling, Requests;
    var r, q := Answered(m), Receive(p, m).piece;
    var k := Find(p.inFlight, r);
    InFlightIsTiled(p, k);
    assert Answers(p.received + [m]) == Answers(p.received) + [r];
    FlaggedUpdate(p.inFlight, k, r);
    forall s
      ensures Count(Answers(q.received), s) == Count(Flagged(q.inFlight, true), s)
    {
      FlaggedUpdate(p.inFlight, k, s);
      CountSnoc(Answers(p.received), r, s);
      assert Count(Answers(p.received), s) == Count(Flagged(p.inFlight, true), s);
    }
    forall s
      ensures Held(q, s) == Count(Tiling(p.index, 0, p.size), s)
      ensures Count(q.log.sent, s) == Explained(q, s)
    {
      assert Held(p, s) == Count(Tiling(p.index, 0, p.size), s);
      assert Count(p.log.sent, s) == Explained(p, s);
    }
    ByteCountSplit(Answers(p.received), [r]);
    ByteCountOne(r);
  }

  lemma InFlightIsTiled(p: PieceState, k: nat)
    requires Conserved(p) && k < |p.inFlight|
    ensures p.inFlight[k].request.index == p.index && 0 < p.inFlight[k].request.length
  {
    hide Conserved;
    assert Requests(p.inFlight)[k] == p.inFlight[k].request;
    FromTiling(p, p.inFlight[k].request);
  }

  /** The state after a message, stored or not. */
  function Absorb(p: PieceState, m: Piece): PieceState {
    match Receive(p, m)
    case Stored(q) => q
    case _ => p
  }

  /** After a message its request is no longer awaited, and no other request becomes awaited. */
  lemma AbsorbSettles(p: PieceState, m: Piece)
    requires Conserved(p) && |m.block| < U32
    ensures var q := Absorb(p, m);
            && Conserved(q) && q.pending == p.pending && q.index == p.index && q.size == p.size
            && Answered(m) !in Flagged(q.inFlight, false)
            && forall r <- Flagged(q.inFlight, false) :: r in Flagged(p.inFlight, false)
  {
    hide Conserved;
    var q, s := Absorb(p, m), Answered(m);
    ReceiveConserves(p, m);
    if Receive(p, m).Stored? {
      var k := Find(p.inFlight, s);
      DuplicateIffFlagged(p, m);
      forall r
        ensures Count(Flagged(q.inFlight, false), r) + (if r == s then 1 else 0) == Count(Flagged(p.inFlight, false), r)
      {
        FlaggedUpdate(p.inFlight, k, r);
        FlaggedPartition(p.inFlight, r);
        FlaggedPartition(q.inFlight, r);
      }
      FlaggedPartition(p.inFlight, s);
      InFlightCount(p, s);
      CountMember(Flagged(q.inFlight, false), s);
      forall r <- Flagged(q.inFlight, false)
        ensures r in Flagged(p.inFlight, false)
      {
        CountMember(Flagged(q.inFlight, false), r);
        CountMember(Flagged(p.inFlight, false), r);
      }
    }
  }

  lemma InFlightCount(p: PieceState, r: Request)
    requires Conserved(p)
    ensures Count(Requests(p.inFlight), r) <= 1
  {
    FromTiling(p, r);
  }

  /** A stale pointer is harmless: a complete piece stores nothing more. */
  lemma CompleteStoresNothing(p: PieceState, m: Piece)
    requires Conserved(p) && Complete(p) && |m.block| < U32
    ensures Receive(p, m) == Untracked || Receive(p, m) == Duplicate
  {
    ReceiveConserves(p, m);
    Accounting(p);
  }

  lemma {:induction false} NothingLate(sent: seq<Timed>, clock: nat -> int, n: nat)
    requires n <= |sent| && forall t <- sent :: t.received
    ensures Expired(sent, clock, n) == [] && Kept(sent, clock, n) == sent[..n]
  {
    if n > 0 {
      NothingLate(sent, clock, n - 1);
      assert sent[n - 1] in sent;
    }
  }

  /** ... and the scheduler changes nothing when it sweeps one. */
  lemma CompleteSweepIsIdle(p: PieceState, w: Sweep)
    requires Conserved(p) && Complete(p)
    ensures SweepPiece(p, w) == p
  {
    CompleteIsQuiet(p);
    NothingLate(p.inFlight, w.checked, |p.inFlight|);
    assert TimeOut(p, w.checked) == p;
  }

  /** Retrying a complete piece never fails, and puts the whole tiling back to pending. */
  lemma RetryConserves(p: PieceState)
    requires Conserved(p) && Complete(p)
    ensures Retry(p).Some?
    ensures var q := Retry(p).value;
            && Conserved(q) && q.downloaded == 0 && !Complete(q)
            && SameElements(q.pending, Tiling(p.index, 0, p.size))
            && Work(q) == 2 * |Tiling(p.index, 0, p.size)|
            && q.index == p.index && q.size == p.size
  {
    CompleteIsQuiet(p);
    var q := Retry(p).value;
    forall r
      ensures Held(q, r) == Count(Tiling(p.index, 0, p.size), r) && Count(q.log.sent, r) == Explained(q, r)
    {
      CountSplit(p.log.retried, Requests(p.inFlight), r);
      assert Count(p.log.sent, r) == Explained(p, r);
      assert Count(Requests(p.inFlight), r) == Count(Tiling(p.index, 0, p.size), r);
    }
  }

  // ---------- Request counting ----------

  /**
    Every send of a block is explained: it was answered by a time-out, or by a retry, or it is
    still in flight. Without time-outs and retries no block is requested twice.
   */
  lemma RequestCounting(p: PieceState)
    requires Conserved(p)
    ensures |p.log.sent| == |p.log.expired| + |p.log.retried| + |p.inFlight|
    ensures |p.log.sent| + p.log.accepted
            <= 2 * |Tiling(p.index, 0, p.size)| + |p.log.expired| + 2 * |p.log.retried|
    ensures p.log.expired == [] && p.log.retried == [] ==> forall r :: Count(p.log.sent, r) <= 1
    ensures Complete(p) && p.log.expired == [] && p.log.retried == [] ==>
              SameElements(p.log.sent, Tiling(p.index, 0, p.size))
  {
    var explained := p.log.expired + p.log.retried + Requests(p.inFlight);
    forall r
      ensures Count(p.log.sent, r) == Count(explained, r)
      ensures Count(Requests(p.inFlight), r) <= 1
    {
      CountSplit(p.log.expired + p.log.retried, Requests(p.inFlight), r);
      CountSplit(p.log.expired, p.log.retried, r);
      assert Count(p.log.sent, r) == Explained(p, r);
      FromTiling(p, r);
    }
    SameElementsLength(p.log.sent, explained);
    if Complete(p) {
      CompleteIsQuiet(p);
    }
    if p.log.expired == [] && p.log.retried == [] {
      assert explained == Requests(p.inFlight);
    }
  }
}
