/** Which requests a sweep takes back, which it sends, and with which times. */
module Sweeps {
  import opened Base
  import opened Messages
  import opened Pending

  /** Request `k` in flight is unanswered and was sent more than eight seconds before its clock reading. */
  predicate Overdue(sent: seq<Timed>, clock: nat -> int, k: nat)
    requires k < |sent|
  {
    !sent[k].received && clock(k) - sent[k].send > 8_000_000_000
  }

  lemma {:induction false} SplitExact(sent: seq<Timed>, clock: nat -> int, n: nat)
    requires n <= |sent|
    ensures var moved, kept := Expired(sent, clock, n), Kept(sent, clock, n);
            && |moved| + |kept| == n
            && (forall k :: 0 <= k < n && Overdue(sent, clock, k) ==> sent[k].request in moved)
            && (forall k :: 0 <= k < n && !Overdue(sent, clock, k) ==> sent[k] in kept)
            && (forall r <- moved :: exists k :: 0 <= k < n && Overdue(sent, clock, k) && sent[k].request == r)
            && (forall t <- kept :: exists k :: 0 <= k < n && !Overdue(sent, clock, k) && sent[k] == t)
  {
    if n > 0 {
      SplitExact(sent, clock, n - 1);
    }
  }

  lemma {:induction false} NothingMoves(sent: seq<Timed>, clock: nat -> int, n: nat)
    requires n <= |sent| && forall k :: 0 <= k < n ==> !Overdue(sent, clock, k)
    ensures Expired(sent, clock, n) == [] && Kept(sent, clock, n) == sent[..n]
  {
    if n > 0 {
      NothingMoves(sent, clock, n - 1);
      assert !Overdue(sent, clock, n - 1);
      assert sent[..n] == sent[..n - 1] + [sent[n - 1]];
    }
  }

  /**
    Timing out takes back the overdue requests and no others: each of them goes behind what is
    pending, the rest stays in flight, and nothing changes if none is overdue.
   */
  lemma TimeOutExact(p: PieceState, clock: nat -> int)
    ensures var q := TimeOut(p, clock);
            && p.pending <= q.pending
            && var moved := q.pending[|p.pending|..];
            && |moved| + |q.inFlight| == |p.inFlight|
            && (forall k :: 0 <= k < |p.inFlight| && Overdue(p.inFlight, clock, k) ==> p.inFlight[k].request in moved)
            && (forall k :: 0 <= k < |p.inFlight| && !Overdue(p.inFlight, clock, k) ==> p.inFlight[k] in q.inFlight)
            && (forall r <- moved ::
                  exists k :: 0 <= k < |p.inFlight| && Overdue(p.inFlight, clock, k) && p.inFlight[k].request == r)
            && (forall t <- q.inFlight ::
                  exists k :: 0 <= k < |p.inFlight| && !Overdue(p.inFlight, clock, k) && p.inFlight[k] == t)
    ensures (forall k :: 0 <= k < |p.inFlight| ==> !Overdue(p.inFlight, clock, k)) ==> TimeOut(p, clock) == p
  {
    SplitExact(p.inFlight, clock, |p.inFlight|);
    if forall k :: 0 <= k < |p.inFlight| ==> !Overdue(p.inFlight, clock, k) {
      NothingMoves(p.inFlight, clock, |p.inFlight|);
      assert p.pending + [] == p.pending && p.log.expired + [] == p.log.expired;
    }
  }

  lemma {:induction false} SentExact(pending: seq<Request>, ok: nat -> bool, clock: nat -> int, n: nat)
    requires n <= |pending|
    ensures var sent, unsent := Sent(pending, ok, clock, n), Unsent(pending, ok, n);
            && |sent| + |unsent| == n
            && (forall k :: 0 <= k < n && ok(k) ==> Timed(pending[k], clock(k), false) in sent)
            && (forall k :: 0 <= k < n && !ok(k) ==> pending[k] in unsent)
            && (forall t <- sent :: exists k :: 0 <= k < n && ok(k) && t == Timed(pending[k], clock(k), false))
            && (forall r <- unsent :: exists k :: 0 <= k < n && !ok(k) && r == pending[k])
  {
    if n > 0 {
      SentExact(pending, ok, clock, n - 1);
    }
  }

  /** Sending puts exactly the requests that went through in flight, unanswered and with their times. */
  lemma SendExact(p: PieceState, ok: nat -> bool, clock: nat -> int)
    ensures var q := Send(p, ok, clock);
            && p.inFlight <= q.inFlight
            && var sent := q.inFlight[|p.inFlight|..];
            && |sent| + |q.pending| == |p.pending|
            && (forall k :: 0 <= k < |p.pending| && ok(k) ==> Timed(p.pending[k], clock(k), false) in sent)
            && (forall k :: 0 <= k < |p.pending| && !ok(k) ==> p.pending[k] in q.pending)
            && (forall t <- sent ::
                  exists k :: 0 <= k < |p.pending| && ok(k) && t == Timed(p.pending[k], clock(k), false))
            && (forall r <- q.pending :: exists k :: 0 <= k < |p.pending| && !ok(k) && r == p.pending[k])
  {
    SentExact(p.pending, ok, clock, |p.pending|);
  }

  /** In a sweep the overdue requests are taken back first, so that they can be sent again at once. */
  lemma SweepExact(p: PieceState, w: Sweep)
    ensures SweepPiece(p, w) == Send(TimeOut(p, w.checked), w.ok, w.clock)
    ensures (forall k :: 0 <= k < |TimeOut(p, w.checked).pending| ==> w.ok(k)) ==> SweepPiece(p, w).pending == []
  {
    if forall k :: 0 <= k < |TimeOut(p, w.checked).pending| ==> w.ok(k) {
      AllSent(TimeOut(p, w.checked).pending, w.ok, |TimeOut(p, w.checked).pending|);
    }
  }

  lemma {:induction false} AllSent(pending: seq<Request>, ok: nat -> bool, n: nat)
    requires n <= |pending| && forall k :: 0 <= k < n ==> ok(k)
    ensures Unsent(pending, ok, n) == []
  {
    if n > 0 {
      AllSent(pending, ok, n - 1);
    }
  }

  /** Blocks are of 16 KiB, and no request may ask for more. */
  lemma BlockSize(r: Request)
    ensures REQUEST_SIZE == 16384
    ensures Validate(r) <==> r.length <= 16384
  {
  }
}
