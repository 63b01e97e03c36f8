/** From every state in which the scheduler runs, a download whose data exist can be completed. */
module Completion {
  import opened Base
  import opened Messages
  import opened Pending
  import opened Conservation
  import opened Reassembly
  import opened Download
  import opened DownloadInvariant
  import opened DownloadTheorems
  import opened HonestRuns
  import opened Progress

  // ---------- Delivering a block ----------

  lemma {:induction false} Above(keys: set<nat>) returns (r: nat)
    ensures forall k <- keys :: k < r
    decreases |keys|
  {
    if keys == {} {
      r := 0;
    } else {
      var k :| k in keys;
      var rest := Above(keys - {k});
      r := if k < rest then rest else k + 1;
      assert forall x <- keys :: x == k || x in keys - {k};
    }
  }

  /** Nothing is pending or changed but piece `i` of slot `j`, which is being filled. */
  ghost predicate Filling(s: State, t: State, i: nat, j: nat) {
    && t.scheduler == s.scheduler && t.slots == s.slots && t.bits == s.bits
    && i in t.pieces && j < |t.slots| && t.slots[j] == Some(i)
  }

  /** A receiver that looks for piece `i` finds it in its slot. */
  lemma {:induction false} LooksUp(c: Config, s: State, r: nat, m: Piece, k: nat, i: nat, j: nat) returns (t: State)
    requires Inv(c, s) && r in s.receivers && s.receivers[r] == Looking(m, k) && m.index == i
    requires k <= j < |s.slots| && s.slots[j] == Some(i)
    ensures Leads(c, s, t) && t == s.(receivers := s.receivers[r := Found(m, j, i)])
    decreases j - k
  {
    SlotCount(c, s);
    OtherSlots(c, s, i, j, k);
    var u := Take(c, s, LookUp(r));
    hide Inv;
    if k == j {
      t := u;
    } else {
      t := LooksUp(c, u, r, m, k + 1, i, j);
      Then(c, s, u, t);
      assert s.receivers[r := Looking(m, k + 1)][r := Found(m, j, i)] == s.receivers[r := Found(m, j, i)];
    }
  }

  lemma OtherSlots(c: Config, s: State, i: nat, j: nat, k: nat)
    requires Inv(c, s) && k <= j < |s.slots| && s.slots[j] == Some(i)
    ensures k < j ==> s.slots[k] != Some(i)
  {
  }

  /** An awaited block arrives and is stored. */
  lemma Deliver(c: Config, s: State, i: nat, j: nat, m: Piece) returns (t: State)
    requires Inv(c, s) && s.held == map[] && j < |s.slots| && s.slots[j] == Some(i) && i in s.pieces
    requires |m.block| < U32 && Answered(m) in Flagged(s.pieces[i].inFlight, false)
    ensures Leads(c, s, t) && Filling(s, t, i, j)
    ensures t.pieces[i].received == s.pieces[i].received + [m] && t.pieces[i].pending == s.pieces[i].pending
    ensures Work(t.pieces[i]) < Work(s.pieces[i])
    ensures t.held == if Complete(t.pieces[i]) then map[i := Hold(j, Checking(Assemble(t.pieces[i])))] else map[]
  {
    hide Conserved, Sum, Credits, Assemble, Work, Complete, ReceiversOk, SchedulerOk, Receive;
    assert IndexOk(c, s, i);
    ReceiveConserves(s.pieces[i], m);
    ReceiveKeepsPending(s.pieces[i], m);
    var r := Above(s.receivers.Keys);
    var u := Take(c, s, Arrive(r, m));
    var v := LooksUp(c, u, r, m, 0, i, j);
    t := Take(c, v, Enter(r));
    hide Inv, Next;
    Then(c, s, u, v);
    Then(c, s, v, t);
  }

  lemma ReceiveKeepsPending(p: PieceState, m: Piece)
    ensures Receive(p, m).Stored? ==> Receive(p, m).piece.pending == p.pending
  {
  }

  /** The block of honest data that answers an awaited request. */
  lemma HonestAnswer(p: PieceState, data: Bytes) returns (m: Piece)
    requires Conserved(p) && !Complete(p) && p.pending == [] && |data| == p.size
    ensures |m.block| < U32 && Answered(m) in Flagged(p.inFlight, false) && Honest(m, data)
  {
    hide Conserved, Flagged, Complete;
    var r := Awaited(p);
    SizeFits(p);
    m := Piece(r.index, r.begin, data[r.begin..r.begin + r.length]);
  }

  lemma Awaited(p: PieceState) returns (r: Request)
    requires Conserved(p) && !Complete(p) && p.pending == []
    ensures r in Flagged(p.inFlight, false)
    ensures 0 <= r.begin && 0 < r.length && Validate(r) && r.begin + r.length <= p.size
  {
    hide Conserved;
    Accounting(p);
    r := Flagged(p.inFlight, false)[0];
    FlaggedMember(p.inFlight, false, r);
    var k :| 0 <= k < |p.inFlight| && p.inFlight[k].request == r;
    assert Requests(p.inFlight)[k] == r;
    hide Complete, Flagged;
    FromTiling(p, r);
  }

  lemma SizeFits(p: PieceState)
    requires Conserved(p)
    ensures 0 < p.size < U32
  {
  }

  /** A piece whose requests are all in flight is filled with honest blocks until it is complete. */
  lemma {:induction false} Fill(c: Config, s: State, i: nat, j: nat, data: Bytes) returns (t: State)
    requires Inv(c, s) && s.held == map[] && j < |s.slots| && s.slots[j] == Some(i) && i in s.pieces && i !in s.bits
    requires s.pieces[i].pending == [] && i < |c.sizes| && |data| == c.sizes[i]
    ensures Leads(c, s, t) && Filling(s, t, i, j)
    ensures t.held == map[i := Hold(j, Checking(Assemble(t.pieces[i])))]
    ensures AllHonest(s.pieces[i].received, data) ==> AllHonest(t.pieces[i].received, data)
    decreases Work(s.pieces[i])
  {
    InSlot(c, s, i);
    var m := HonestAnswer(s.pieces[i], data);
    var u := Deliver(c, s, i, j, m);
    hide Inv, Next, Work, Assemble, Honest, Complete, Conserved;
    if Complete(u.pieces[i]) {
      t := u;
    } else {
      t := Fill(c, u, i, j, data);
      Then(c, s, u, t);
    }
  }

  lemma InSlot(c: Config, s: State, i: nat)
    requires Inv(c, s) && s.held == map[] && i in s.pieces && i !in s.bits
    ensures Conserved(s.pieces[i]) && !Complete(s.pieces[i]) && i < |c.sizes| && s.pieces[i].size == c.sizes[i]
  {
    assert IndexOk(c, s, i);
  }

  // ---------- Finishing a piece ----------

  /** One round for a started piece: it gets verified, or starts over with nothing received. */
  lemma Attempt(c: Config, s: State, i: nat, j: nat, data: Bytes) returns (t: State)
    requires Inv(c, s) && AtStart(s) && j < |s.slots| && s.slots[j] == Some(i) && i in s.pieces && i !in s.bits
    requires c.Good(i, data)
    ensures Leads(c, s, t) && AtStart(t) && s.bits <= t.bits
    ensures i in t.bits || Emptied(s, t, i)
    ensures AllHonest(s.pieces[i].received, data) ==> i in t.bits
  {
    hide Inv, Next, Assemble, Honest;
    var u := ScanOn(c, s);
    NotFinished(c, u, j);
    var v := Fill(c, u, i, j, data);
    t := Release(c, v, i);
    Then(c, s, u, v);
    Then(c, s, v, t);
    if AllHonest(s.pieces[i].received, data) {
      HeldFacts(c, v, i);
      HonestBlocksRebuild(v.pieces[i], data);
    }
  }

  lemma NotFinished(c: Config, s: State, j: nat)
    requires Inv(c, s) && j < |s.slots| && s.slots[j].Some?
    ensures s.closed == 0
  {
  }

  lemma FinishStarted(c: Config, s: State, i: nat, j: nat, data: Bytes) returns (t: State)
    requires Inv(c, s) && AtStart(s) && j < |s.slots| && s.slots[j] == Some(i) && i in s.pieces && i !in s.bits
    requires c.Good(i, data)
    ensures Leads(c, s, t) && AtStart(t) && s.bits <= t.bits && i in t.bits
  {
    hide Inv, Next;
    t := Attempt(c, s, i, j, data);
    if i !in t.bits {
      var u := t;
      t := Attempt(c, u, i, j, data);
      Then(c, s, u, t);
    }
  }

  // ---------- Starting a piece, and the end ----------

  /** With all slots free a scan comes to its end having counted all of them. */
  lemma {:induction false} FreeScan(c: Config, s: State, k: nat) returns (t: State)
    requires Inv(c, s) && s.scheduler == Scanning(k, k) && k <= SLOTS
    requires forall j :: 0 <= j < |s.slots| ==> s.slots[j] == None
    ensures Leads(c, s, t) && t == s.(scheduler := Scanning(SLOTS, SLOTS))
    decreases SLOTS - k
  {
    SlotCount(c, s);
    if k == SLOTS {
      t := s;
      Stays(c, s);
    } else {
      var u := Take(c, s, LoadSlot);
      hide Inv;
      t := FreeScan(c, u, k + 1);
      Then(c, s, u, t);
    }
  }

  lemma StartOne(c: Config, s: State, i: nat) returns (t: State)
    requires Inv(c, s) && AtStart(s) && i in s.unverified
    requires forall j :: 0 <= j < |s.slots| ==> s.slots[j] == None
    ensures Leads(c, s, t) && AtStart(t) && t.bits == s.bits
    ensures 0 < |t.slots| && t.slots[0] == Some(i) && i in t.pieces
  {
    hide Conserved, Sum, Credits, Start;
    SlotCount(c, s);
    assert IndexOk(c, s, i);
    var u := FreeScan(c, s, 0);
    var v := Take(c, u, EndScan);
    var w := Take(c, v, SeekSlot);
    t := Take(c, w, StartPiece(i));
    hide Inv, Next;
    Then(c, s, u, v);
    Then(c, s, v, w);
    Then(c, s, w, t);
  }

  /** Data for every piece, with the digests of the torrent. */
  ghost predicate DataExist(c: Config, data: seq<Bytes>) {
    |data| == |c.sizes| && forall i :: 0 <= i < |data| ==> c.Good(i, data[i])
  }

  /** One more piece can be verified. */
  lemma FinishOne(c: Config, s: State, i: nat, data: seq<Bytes>) returns (t: State)
    requires Inv(c, s) && AtStart(s) && i < |c.sizes| && i !in s.bits && DataExist(c, data)
    ensures Leads(c, s, t) && AtStart(t) && s.bits <= t.bits
    ensures exists x :: x in t.bits && x !in s.bits
  {
    if j :| 0 <= j < |s.slots| && s.slots[j].Some? {
      var x := s.slots[j].value;
      Occupied(c, s, j);
      t := FinishStarted(c, s, x, j, data[x]);
    } else {
      AllFreeMeansWaiting(c, s, i);
      var u := StartOne(c, s, i);
      t := FinishStarted(c, u, i, 0, data[i]);
      Then(c, s, u, t);
    }
  }

  lemma Occupied(c: Config, s: State, j: nat)
    requires Inv(c, s) && s.held == map[] && j < |s.slots| && s.slots[j].Some?
    ensures s.slots[j].value in s.pieces && s.slots[j].value < |c.sizes| && s.slots[j].value !in s.bits
  {
    assert IndexOk(c, s, s.slots[j].value);
    assert s.slots[j] in s.slots;
  }

  lemma AllFreeMeansWaiting(c: Config, s: State, i: nat)
    requires Inv(c, s) && s.held == map[] && i < |c.sizes| && i !in s.bits
    requires forall j :: 0 <= j < |s.slots| ==> s.slots[j].None?
    ensures i in s.unverified
  {
    assert IndexOk(c, s, i);
  }

  /** With every piece verified the scheduler finishes. */
  lemma Finish(c: Config, s: State) returns (t: State)
    requires Inv(c, s) && AtStart(s) && forall i :: 0 <= i < |c.sizes| ==> i in s.bits
    ensures Leads(c, s, t) && t.closed == 1
  {
    forall j | 0 <= j < |s.slots|
      ensures s.slots[j] == None
    {
      if s.slots[j].Some? {
        Occupied(c, s, j);
      }
    }
    NoneWaiting(c, s);
    SlotCount(c, s);
    var u := FreeScan(c, s, 0);
    t := Take(c, u, EndScan);
    hide Inv, Next;
    Then(c, s, u, t);
  }

  lemma NoneWaiting(c: Config, s: State)
    requires Inv(c, s) && forall i :: 0 <= i < |c.sizes| ==> i in s.bits
    ensures s.unverified == {}
  {
    forall i
      ensures i !in s.unverified
    {
      assert IndexOk(c, s, i);
    }
  }

  function Unfinished(c: Config, s: State): set<nat> {
    set i | 0 <= i < |c.sizes| && i !in s.bits
  }

  lemma {:induction false} FinishAll(c: Config, s: State, data: seq<Bytes>) returns (t: State)
    requires Inv(c, s) && AtStart(s) && DataExist(c, data)
    ensures Leads(c, s, t) && t.closed == 1
    decreases |Unfinished(c, s)|
  {
    hide Inv, Next;
    if i :| 0 <= i < |c.sizes| && i !in s.bits {
      var u := FinishOne(c, s, i, data);
      var x :| x in u.bits && x !in s.bits;
      BitsAreIndexes(c, u, x);
      assert x in Unfinished(c, s) && x !in Unfinished(c, u);
      Fewer(Unfinished(c, u), Unfinished(c, s), x);
      t := FinishAll(c, u, data);
      Then(c, s, u, t);
    } else {
      t := Finish(c, s);
    }
  }

  lemma BitsAreIndexes(c: Config, s: State, i: nat)
    requires Inv(c, s) && i in s.bits
    ensures i < |c.sizes|
  {
    assert IndexOk(c, s, i);
  }

  lemma {:induction false} Fewer(a: set<nat>, b: set<nat>, x: nat)
    requires a <= b && x in b && x !in a
    ensures |a| < |b|
    decreases |b|
  {
    assert a <= b - {x};
    if a != {} {
      var y :| y in a;
      Fewer(a - {y}, b - {y}, x);
    }
  }

  /**
    As long as the scheduler was not stopped and the data exist somewhere, every state of every
    execution can be continued to completion, whatever peers sent before.
   */
  lemma CompletionStaysReachable(c: Config, run: seq<State>, steps: seq<Step>, k: nat, data: seq<Bytes>) returns (t: State)
    requires IsExecution(c, run, steps) && k < |run| && !run[k].scheduler.Stopped? && DataExist(c, data)
    ensures Leads(c, run[k], t) && t.closed == 1
  {
    hide IsExecution, Inv, Next, DataExist;
    Reachable(c, run, steps, k);
    var s := run[k];
    SlotCount(c, s);
    if s.scheduler.Finished? {
      t := s;
      Stays(c, s);
    } else {
      var u := ReleaseAll(c, s);
      var v := ComeRound(c, u);
      Then(c, s, u, v);
      if v.closed == 1 {
        t := v;
      } else {
        t := FinishAll(c, v, data);
        Then(c, s, v, t);
      }
    }
  }

  lemma ComeRound(c: Config, s: State) returns (t: State)
    requires Inv(c, s) && s.held == map[] && !s.scheduler.Stopped? && !s.scheduler.Finished?
    ensures Leads(c, s, t) && (AtStart(t) || t.closed == 1) && t.bits == s.bits
  {
    hide Inv, Next;
    if s.scheduler.Loaded? {
      var u := SweepEagerly(c, s);
      t := ScanOn(c, u);
      Then(c, s, u, t);
    } else if s.scheduler.Scanning? {
      t := ScanOn(c, s);
    } else {
      t := GiveUp(c, s);
    }
  }

  // ---------- Downloads that were cancelled ----------

  /** A scheduler that was stopped never completes the download. */
  lemma {:induction false} StoppedNeverCompletes(c: Config, s: State, steps: seq<Step>)
    requires Inv(c, s) && s.scheduler.Stopped? && Exec(c, s, steps).Some?
    ensures Exec(c, s, steps).value.scheduler.Stopped? && Exec(c, s, steps).value.closed == 0
    decreases |steps|
  {
    SlotCount(c, s);
    if |steps| > 0 {
      var t := Take(c, s, steps[0]);
      StaysStopped(c, s, steps[0]);
      hide Inv, Next;
      StoppedNeverCompletes(c, t, steps[1..]);
    }
  }

  lemma StaysStopped(c: Config, s: State, step: Step)
    requires s.scheduler.Stopped? && Next(c, s, step).Some?
    ensures Next(c, s, step).value.scheduler.Stopped?
  {
    hide Receive, SweepPiece, Retry, Start, Assemble;
  }

  /**
    The client takes nothing left to download for completion and cancels the download. If that
    happens while a receiver still has to refuse the piece it holds, the scheduler can stop with
    the piece unverified, and then the download never completes.
   */
  lemma CancelledTooEarly(c: Config, run: seq<State>, steps: seq<Step>, k: nat, i: nat) returns (t: State)
    requires IsExecution(c, run, steps) && k < |run| && Left(c, run[k]) == 0
    requires i in run[k].held && run[k].held[i].stage.Checking? && !c.Good(i, run[k].held[i].stage.data)
    requires !run[k].scheduler.Stopped? && !run[k].scheduler.Finished?
    ensures Leads(c, run[k], t) && t.scheduler.Stopped? && i !in t.bits && t.closed == 0
    ensures forall more :: Exec(c, t, more).Some? ==> Exec(c, t, more).value.closed == 0
  {
    hide IsExecution, Inv, Next, Left;
    Reachable(c, run, steps, k);
    var s := run[k];
    var u := Release(c, s, i);
    RefusedIsOpen(c, s, u, i);
    var v := ReleaseAll(c, u);
    var w := ComeRound(c, v);
    OpenIsNotClosed(c, w, i);
    t := StopNow(c, w);
    Then(c, s, u, v);
    Then(c, s, v, w);
    Then(c, s, w, t);
    forall more | Exec(c, t, more).Some?
      ensures Exec(c, t, more).value.closed == 0
    {
      StoppedNeverCompletes(c, t, more);
    }
    StoppedNeverCompletes(c, t, []);
  }

  lemma RefusedIsOpen(c: Config, s: State, t: State, i: nat)
    requires Inv(c, s) && Inv(c, t) && i in s.held && s.held[i].stage.Checking? && SameBut(s, t, i) && Emptied(s, t, i)
    ensures i !in t.bits && i !in t.held && i < |c.sizes|
    ensures t.scheduler == s.scheduler
  {
    assert IndexOk(c, s, i) && IndexOk(c, t, i);
    assert t.slots[s.held[i].slot] == Some(i);
  }

  lemma OpenIsNotClosed(c: Config, s: State, i: nat)
    requires Inv(c, s) && i < |c.sizes| && i !in s.bits
    ensures s.closed == 0
  {
    SlotCount(c, s);
    assert IndexOk(c, s, i);
  }

  lemma StopNow(c: Config, s: State) returns (t: State)
    requires Inv(c, s) && AtStart(s)
    ensures Leads(c, s, t) && t == s.(scheduler := Scheduler.Stopped)
  {
    t := Take(c, s, Stop);
  }
}
