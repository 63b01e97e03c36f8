/** What the download engine stores when the peers answer honestly. */
module HonestRuns {
  import opened Base
  import opened Messages
  import opened Pending
  import opened Conservation
  import opened Reassembly
  import opened Download
  import opened DownloadInvariant
  import opened DownloadTheorems

  /** Every block that arrives for piece `i` repeats the bytes of `data`. */
  ghost predicate HonestAbout(steps: seq<Step>, i: nat, data: Bytes) {
    forall k :: 0 <= k < |steps| && steps[k].Arrive? && steps[k].m.index == i ==> Honest(steps[k].m, data)
  }

  ghost predicate AllHonest(ms: seq<Piece>, data: Bytes) {
    forall m <- ms :: Honest(m, data)
  }

  ghost predicate HonestReceivers(s: State, i: nat, data: Bytes) {
    forall r <- s.receivers :: s.receivers[r].m.index == i ==> Honest(s.receivers[r].m, data)
  }

  /** All that is known of piece `i` agrees with `data`. */
  ghost predicate HonestState(s: State, i: nat, data: Bytes) {
    && HonestReceivers(s, i, data)
    && (i in s.pieces ==> AllHonest(s.pieces[i].received, data))
    && (i in s.held ==>
          && (s.held[i].stage.Checking? || s.held[i].stage.Flushing? ==> s.held[i].stage.data == data)
          && (s.held[i].stage.Flushed? ==> i in s.disk && s.disk[i] == data))
    && (i in s.pieces && i in s.bits ==> i in s.disk && s.disk[i] == data)
  }

  lemma HonestStep(c: Config, s: State, step: Step, i: nat, data: Bytes)
    requires Inv(c, s) && Next(c, s, step).Some? && i < |c.sizes| && |data| == c.sizes[i]
    requires HonestState(s, i, data) && HonestAbout([step], i, data)
    ensures HonestState(Next(c, s, step).value, i, data)
  {
    hide Inv, Honest, HonestState, SweepPiece, NextEnter, NextHolder, NextStartPiece, NextLookUp;
    match step
    case SweepSlot(w) => HonestSweep(c, s, w, i, data);
    case StartPiece(j) => HonestStart(c, s, j, i, data);
    case Enter(r) => HonestEnter(c, s, r, i, data);
    case Arrive(r, m) => HonestArrive(c, s, step, i, data);
    case LookUp(r) => HonestLookUp(s, r, i, data);
    case Stop => HonestSame(s, Next(c, s, step).value, i, data);
    case LoadSlot => HonestSame(s, Next(c, s, step).value, i, data);
    case EndScan => HonestSame(s, Next(c, s, step).value, i, data);
    case SeekSlot => HonestSame(s, Next(c, s, step).value, i, data);
    case NoCandidate => HonestSame(s, Next(c, s, step).value, i, data);
    case _ => HonestHolder(c, s, step, step.i, i, data);
  }

  lemma HonestSame(s: State, t: State, i: nat, data: Bytes)
    requires HonestState(s, i, data)
    requires t.receivers == s.receivers && t.pieces == s.pieces && t.held == s.held
    requires t.bits == s.bits && t.disk == s.disk
    ensures HonestState(t, i, data)
  {
    hide Honest;
  }

  lemma HonestArrive(c: Config, s: State, step: Step, i: nat, data: Bytes)
    requires step.Arrive? && Next(c, s, step).Some?
    requires HonestState(s, i, data) && HonestAbout([step], i, data)
    ensures HonestState(Next(c, s, step).value, i, data)
  {
    hide Honest;
    assert [step][0].m == step.m;
  }

  lemma HonestSweep(c: Config, s: State, w: Sweep, i: nat, data: Bytes)
    requires Inv(c, s) && NextSweepSlot(s, w).Some? && HonestState(s, i, data)
    ensures HonestState(NextSweepSlot(s, w).value, i, data)
  {
    hide Inv, Honest, SweepPiece;
    SweepReceives(c, s, w);
  }

  lemma HonestStart(c: Config, s: State, j: nat, i: nat, data: Bytes)
    requires Inv(c, s) && NextStartPiece(c, s, j).Some? && HonestState(s, i, data)
    ensures HonestState(NextStartPiece(c, s, j).value, i, data)
  {
    hide Honest, Start, Conserved, SchedulerOk, ReceiversOk, Sum, Credits;
    assert IndexOk(c, s, j);
    FreshReceives(j, c.sizes[j]);
  }

  lemma HonestHolder(c: Config, s: State, step: Step, j: nat, i: nat, data: Bytes)
    requires Inv(c, s) && NextHolder(c, s, step, j).Some? && HonestState(s, i, data)
    ensures HonestState(NextHolder(c, s, step, j).value, i, data)
  {
    hide Honest, Conserved, Assemble, Retry, SchedulerOk, ReceiversOk, Sum, Credits, SlotsOk;
    assert IndexOk(c, s, j);
    RetryReceives(s.pieces[j]);
  }

  lemma FreshReceives(i: int, size: int)
    ensures Start(i, size).received == []
  {
  }

  lemma RetryReceives(p: PieceState)
    ensures Retry(p).Some? ==> Retry(p).value.received == []
  {
  }

  lemma SweepReceives(c: Config, s: State, w: Sweep)
    requires Inv(c, s) && NextSweepSlot(s, w).Some?
    ensures SweepPiece(s.pieces[s.scheduler.index], w).received == s.pieces[s.scheduler.index].received
  {
    hide Conserved, SweepPiece;
    assert IndexOk(c, s, s.scheduler.index);
    SweepConserves(s.pieces[s.scheduler.index], w);
  }

  lemma HonestLookUp(s: State, r: nat, i: nat, data: Bytes)
    requires HonestState(s, i, data) && NextLookUp(s, r).Some?
    ensures HonestState(NextLookUp(s, r).value, i, data)
  {
    hide Honest;
    var t := NextLookUp(s, r).value;
    assert HonestReceivers(t, i, data);
  }

  lemma HonestEnter(c: Config, s: State, r: nat, i: nat, data: Bytes)
    requires Inv(c, s) && NextEnter(s, r).Some? && i < |c.sizes| && |data| == c.sizes[i]
    requires HonestState(s, i, data)
    ensures HonestState(NextEnter(s, r).value, i, data)
  {
    hide Conserved, Honest, Assemble, Receive, SchedulerOk, Sum, Credits;
    var v, t := s.receivers[r], NextEnter(s, r).value;
    assert ReceiverOk(s, v) && IndexOk(c, s, v.index) && IndexOk(c, s, i);
    ReceiveConserves(s.pieces[v.index], v.m);
    CompleteNotInFlight(s.pieces[v.index], v.m);
    if v.index == i && Receive(s.pieces[i], v.m).Stored? {
      var q := Receive(s.pieces[i], v.m).piece;
      assert AllHonest(q.received, data);
      if Complete(q) {
        HonestBlocksRebuild(q, data);
      }
    }
  }

  lemma CompleteNotInFlight(p: PieceState, m: Piece)
    requires Conserved(p) && |m.block| < U32
    ensures Complete(p) ==> !Receive(p, m).Stored?
  {
    if Complete(p) {
      CompleteStoresNothing(p, m);
    }
  }

  lemma {:induction false} HonestRun(c: Config, run: seq<State>, steps: seq<Step>, k: nat, i: nat, data: Bytes)
    requires IsExecution(c, run, steps) && k < |run|
    requires i < |c.sizes| && |data| == c.sizes[i] && HonestAbout(steps, i, data)
    ensures HonestState(run[k], i, data)
  {
    hide Inv, Next, HonestState;
    if k == 0 {
      StartsHonest(c, run[0], i, data);
    } else {
      HonestRun(c, run, steps, k - 1, i, data);
      Reachable(c, run, steps, k - 1);
      assert Next(c, run[k - 1], steps[k - 1]) == Some(run[k]);
      assert HonestAbout([steps[k - 1]], i, data);
      HonestStep(c, run[k - 1], steps[k - 1], i, data);
    }
  }

  lemma StartsHonest(c: Config, s: State, i: nat, data: Bytes)
    requires exists bits, disk :: s == NewTracker(c, bits, disk)
    ensures HonestState(s, i, data)
  {
  }

  /**
    Over every interleaving, with time-outs, resends, duplicates, late blocks and retries: if
    what arrives for piece `i` are bytes of a seeder's file, then what is checked is that file,
    the check passes if the file has the expected digest, and what ends up stored under the
    piece's bit is that file.
   */
  lemma LeecherRebuildsSeeder(c: Config, run: seq<State>, steps: seq<Step>, k: nat, i: nat, data: Bytes)
    requires IsExecution(c, run, steps) && k < |run|
    requires i < |c.sizes| && |data| == c.sizes[i] && HonestAbout(steps, i, data)
    ensures i in run[k].held && run[k].held[i].stage.Checking? ==>
              && run[k].held[i].stage.data == data
              && (c.Good(i, data) && Next(c, run[k], CheckHash(i)).Some? ==>
                    Next(c, run[k], CheckHash(i)).value.held[i].stage == Flushing(data))
    ensures i in run[k].bits && i !in run[0].bits ==> i in run[k].disk && run[k].disk[i] == data
  {
    hide Conserved, Honest, Assemble, SchedulerOk, ReceiversOk, SlotsOk, Sum, Credits;
    HonestRun(c, run, steps, k, i, data);
    Reachable(c, run, steps, k);
    assert IndexOk(c, run[k], i);
    if i in run[k].bits && i !in run[0].bits {
      VerifiedHere(c, run, steps, k, i);
    }
  }

  /** A bit that was not set at the start belongs to a piece this run started. */
  lemma {:induction false} VerifiedHere(c: Config, run: seq<State>, steps: seq<Step>, k: nat, i: nat)
    requires IsExecution(c, run, steps) && k < |run| && i in run[k].bits && i !in run[0].bits
    ensures i in run[k].pieces
  {
    hide Inv, Next;
    if k > 0 {
      Reachable(c, run, steps, k - 1);
      assert Next(c, run[k - 1], steps[k - 1]) == Some(run[k]);
      StepIsMonotone(c, run[k - 1], steps[k - 1]);
      if i in run[k - 1].bits {
        VerifiedHere(c, run, steps, k - 1, i);
      } else {
        NewBitIsStarted(c, run[k - 1], steps[k - 1], i);
      }
    }
  }

  lemma NewBitIsStarted(c: Config, s: State, step: Step, i: nat)
    requires Inv(c, s) && Next(c, s, step).Some? && i !in s.bits && i in Next(c, s, step).value.bits
    ensures i in Next(c, s, step).value.pieces
  {
    hide IndexOk, ReceiversOk, SlotsOk, SchedulerOk, Sum, Credits, SweepPiece, Receive, Retry, Start;
  }
}
