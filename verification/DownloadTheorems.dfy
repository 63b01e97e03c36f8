/** What holds in every reachable state, and over every run, of the download engine. */
module DownloadTheorems {
  import opened Base
  import opened Pending
  import opened Conservation
  import opened Reassembly
  import opened Download
  import opened DownloadInvariant

  /** `run` visits its states by `steps`, whatever the goroutines and the peers do. */
  ghost predicate IsRun(c: Config, run: seq<State>, steps: seq<Step>) {
    && |run| == |steps| + 1
    && forall k :: 0 <= k < |steps| ==> Next(c, run[k], steps[k]) == Some(run[k + 1])
  }

  /** A run from a tracker opened on verified files. */
  ghost predicate IsExecution(c: Config, run: seq<State>, steps: seq<Step>) {
    && c.Valid() && IsRun(c, run, steps)
    && exists bits, disk :: StorageOk(c, bits, disk) && run[0] == NewTracker(c, bits, disk)
  }

  lemma {:induction false} RunKeepsInv(c: Config, run: seq<State>, steps: seq<Step>, k: nat)
    requires IsRun(c, run, steps) && Inv(c, run[0]) && k < |run|
    ensures Inv(c, run[k])
  {
    hide Inv, Next;
    if k > 0 {
      RunKeepsInv(c, run, steps, k - 1);
      assert Next(c, run[k - 1], steps[k - 1]) == Some(run[k]);
      StepKeepsInv(c, run[k - 1], steps[k - 1]);
    }
  }

  /** Every state of every execution satisfies the invariant. */
  lemma Reachable(c: Config, run: seq<State>, steps: seq<Step>, k: nat)
    requires IsExecution(c, run, steps) && k < |run|
    ensures Inv(c, run[k])
  {
    var bits, disk :| StorageOk(c, bits, disk) && run[0] == NewTracker(c, bits, disk);
    InitInv(c, bits, disk);
    RunKeepsInv(c, run, steps, k);
  }

  // ---------- Unreachable failures ----------

  /**
    None of the panics and warnings happens: no piece gets more bytes than it has, no retry
    finds pending requests, no piece is verified by two receivers, no slot is lost.
   */
  lemma NoFaults(c: Config, run: seq<State>, steps: seq<Step>, k: nat)
    requires IsExecution(c, run, steps) && k < |run|
    ensures run[k].faults == {}
  {
    Reachable(c, run, steps, k);
  }

  // ---------- Block conservation and verified storage ----------

  /** Every started piece holds its tiling, each block once, in any reachable state. */
  lemma BlocksConserved(c: Config, run: seq<State>, steps: seq<Step>, k: nat, i: nat)
    requires IsExecution(c, run, steps) && k < |run| && i in run[k].pieces
    ensures var p := run[k].pieces[i];
            && p.index == i && i < |c.sizes| && p.size == c.sizes[i]
            && multiset(p.pending + Requests(p.inFlight)) == multiset(Tiling(i, 0, c.sizes[i]))
            && multiset(Answers(p.received)) == multiset(Flagged(p.inFlight, true))
            && 0 <= p.downloaded <= p.size
  {
    Reachable(c, run, steps, k);
    var p := run[k].pieces[i];
    assert IndexOk(c, run[k], i);
    var all, tiling := p.pending + Requests(p.inFlight), Tiling(i, 0, c.sizes[i]);
    forall r
      ensures Count(all, r) == Count(tiling, r)
    {
      CountSplit(p.pending, Requests(p.inFlight), r);
      assert Held(p, r) == Count(tiling, r);
    }
    SameElementsMultiset(all, tiling);
    SameElementsMultiset(Answers(p.received), Flagged(p.inFlight, true));
    Accounting(p);
  }

  /** Verified storage: a set bit means a file of the right length and digest. */
  lemma VerifiedStorage(c: Config, run: seq<State>, steps: seq<Step>, k: nat, i: nat)
    requires IsExecution(c, run, steps) && k < |run| && i in run[k].bits
    ensures i in run[k].disk && c.Good(i, run[k].disk[i])
  {
    Reachable(c, run, steps, k);
    assert IndexOk(c, run[k], i);
  }

  /** A step never clears a bit, never forgets a piece object, never rewrites a verified file. */
  lemma StepIsMonotone(c: Config, s: State, step: Step)
    requires Inv(c, s) && Next(c, s, step).Some?
    ensures var t := Next(c, s, step).value;
            && s.bits <= t.bits && s.pieces.Keys <= t.pieces.Keys && s.closed <= t.closed
            && forall i <- s.bits :: i in s.disk && i in t.disk && t.disk[i] == s.disk[i]
  {
    hide Conserved, Assemble, SweepPiece, Receive, Sum, Credits, ReceiversOk, Retry, Start, NextHolder;
    BitsAreOnDisk(c, s);
    match step
    case Stop =>
    case LoadSlot =>
    case SweepSlot(_) =>
    case EndScan =>
    case SeekSlot =>
    case NoCandidate =>
    case StartPiece(_) =>
    case Arrive(_, _) =>
    case LookUp(_) =>
    case Enter(_) =>
    case _ =>
      HolderIsMonotone(c, s, step, step.i);
  }

  lemma HolderIsMonotone(c: Config, s: State, step: Step, i: nat)
    requires Inv(c, s) && NextHolder(c, s, step, i).Some?
    ensures var t := NextHolder(c, s, step, i).value;
            && s.bits <= t.bits && s.pieces.Keys <= t.pieces.Keys && s.closed <= t.closed
            && forall j <- s.bits :: j in t.disk && (j in s.disk ==> t.disk[j] == s.disk[j])
  {
    hide Conserved, Assemble, Sum, Credits, ReceiversOk, Retry;
    BitsAreOnDisk(c, s);
    assert IndexOk(c, s, i);
  }

  lemma {:induction false} RunIsMonotone(c: Config, run: seq<State>, steps: seq<Step>, a: nat, b: nat)
    requires IsRun(c, run, steps) && Inv(c, run[0]) && a <= b < |run|
    ensures run[a].bits <= run[b].bits && run[a].pieces.Keys <= run[b].pieces.Keys
    ensures run[a].closed <= run[b].closed
    ensures forall i <- run[a].bits :: i in run[a].disk && i in run[b].disk && run[b].disk[i] == run[a].disk[i]
    decreases b
  {
    hide Inv, Next;
    if a < b {
      RunIsMonotone(c, run, steps, a, b - 1);
      RunKeepsInv(c, run, steps, b - 1);
      assert Next(c, run[b - 1], steps[b - 1]) == Some(run[b]);
      StepIsMonotone(c, run[b - 1], steps[b - 1]);
    } else {
      RunKeepsInv(c, run, steps, a);
      BitsAreOnDisk(c, run[a]);
    }
  }

  lemma BitsAreOnDisk(c: Config, s: State)
    requires Inv(c, s)
    ensures forall i <- s.bits :: i in s.disk && c.Good(i, s.disk[i])
  {
    forall i <- s.bits
      ensures i in s.disk && c.Good(i, s.disk[i])
    {
      assert IndexOk(c, s, i);
    }
  }

  // ---------- Piece lifecycle ----------

  /**
    Every index is unverified, or in exactly one slot, or verified; it is in a slot and
    verified only while its receiver stands between setting the bit and clearing the slot.
   */
  lemma Lifecycle(c: Config, run: seq<State>, steps: seq<Step>, k: nat, i: nat)
    requires IsExecution(c, run, steps) && k < |run| && i < |c.sizes|
    ensures var s := run[k];
            && (i in s.unverified || Some(i) in s.slots || i in s.bits)
            && !(i in s.unverified && (Some(i) in s.slots || i in s.bits))
            && (Some(i) in s.slots && i in s.bits ==> i in s.held && s.held[i].stage == Recorded)
            && forall j, l :: 0 <= j < l < |s.slots| ==> !(s.slots[j] == s.slots[l] == Some(i))
  {
    Reachable(c, run, steps, k);
    assert IndexOk(c, run[k], i);
  }

  ghost predicate Starts(s: State, t: State, i: nat) {
    i !in s.pieces && i in t.pieces
  }

  /** An index is started at most once per run, so naming a piece object by its index is exact. */
  lemma StartedOnce(c: Config, run: seq<State>, steps: seq<Step>, a: nat, b: nat, i: nat)
    requires IsExecution(c, run, steps) && a < b < |steps|
    requires steps[a] == StartPiece(i)
    ensures Starts(run[a], run[a + 1], i)
    ensures steps[b] != StartPiece(i)
  {
    Reachable(c, run, steps, 0);
    Reachable(c, run, steps, a);
    assert Next(c, run[a], steps[a]) == Some(run[a + 1]);
    assert IndexOk(c, run[a], i);
    RunIsMonotone(c, run, steps, a + 1, b);
    Reachable(c, run, steps, b);
    assert Next(c, run[b], steps[b]) == Some(run[b + 1]);
    assert IndexOk(c, run[b], i);
  }

  /** An index is verified at most once per run, and never one that was verified before it. */
  lemma VerifiedOnce(c: Config, run: seq<State>, steps: seq<Step>, a: nat, b: nat, i: nat)
    requires IsExecution(c, run, steps) && a < b < |steps|
    requires steps[a] == SetBit(i)
    ensures i !in run[a].bits && i in run[a + 1].bits
    ensures steps[b] != SetBit(i)
  {
    Reachable(c, run, steps, 0);
    Reachable(c, run, steps, a);
    assert Next(c, run[a], steps[a]) == Some(run[a + 1]);
    assert IndexOk(c, run[a], i);
    RunIsMonotone(c, run, steps, a + 1, b);
    Reachable(c, run, steps, b);
    assert Next(c, run[b], steps[b]) == Some(run[b + 1]);
    assert IndexOk(c, run[b], i);
  }

  // ---------- Global byte accounting ----------

  /** All bytes of piece `i` are counted: it is verified, or its receiver is past its last byte. */
  ghost predicate Counted(s: State, i: nat) {
    i in s.bits || (i in s.held && !s.held[i].stage.RolledBack?)
  }

  lemma CreditBounds(c: Config, s: State, i: nat)
    requires Inv(c, s) && i < |c.sizes|
    ensures 0 <= Credit(c, s, i) <= c.sizes[i]
    ensures Credit(c, s, i) == c.sizes[i] <==> Counted(s, i)
  {
    hide Conserved, Sum, Credits, Assemble;
    assert IndexOk(c, s, i);
    if i in s.pieces {
      Accounting(s.pieces[i]);
    }
  }

  /**
    The counter stays between 0 and the total, and reaches the total exactly when every piece
    is verified or counted in full by a receiver that still holds its lock.
   */
  lemma ByteAccounting(c: Config, run: seq<State>, steps: seq<Step>, k: nat)
    requires IsExecution(c, run, steps) && k < |run|
    ensures 0 <= run[k].downloaded <= c.Total()
    ensures run[k].downloaded == c.Total() <==> forall i :: 0 <= i < |c.sizes| ==> Counted(run[k], i)
  {
    hide IndexOk, ReceiversOk, SchedulerOk;
    var s := run[k];
    Reachable(c, run, steps, k);
    forall i: nat | i < |c.sizes|
      ensures 0 <= Credit(c, s, i) <= c.sizes[i]
      ensures Credit(c, s, i) == c.sizes[i] <==> Counted(s, i)
    {
      CreditBounds(c, s, i);
    }
    SumNonNegative(Credits(c, s));
    SumDominated(Credits(c, s), c.sizes);
    if Credits(c, s) == c.sizes {
      forall i | 0 <= i < |c.sizes|
        ensures Counted(s, i)
      {
        assert Credits(c, s)[i] == c.sizes[i];
      }
    }
  }

  /** What piece `i` should contribute when nobody is in a critical section. */
  function Settled(c: Config, s: State, i: nat): int
    requires i < |c.sizes|
  {
    if i in s.bits then c.sizes[i]
    else if Some(i) in s.slots && i in s.pieces then s.pieces[i].downloaded
    else 0
  }

  /**
    With no lock held past a last byte, the counter is the sizes of the verified pieces plus
    the bytes received by the pieces in the slots, and equals the total exactly when every
    bit is set.
   */
  lemma SettledAccounting(c: Config, run: seq<State>, steps: seq<Step>, k: nat)
    requires IsExecution(c, run, steps) && k < |run| && run[k].held == map[]
    ensures run[k].downloaded
            == Sum(seq(|c.sizes|, i requires 0 <= i < |c.sizes| => Settled(c, run[k], i)))
    ensures run[k].downloaded == c.Total() <==> forall i :: 0 <= i < |c.sizes| ==> i in run[k].bits
  {
    hide ReceiversOk, SchedulerOk, Conserved;
    var s := run[k];
    Reachable(c, run, steps, k);
    ByteAccounting(c, run, steps, k);
    forall i: nat | i < |c.sizes|
      ensures Credit(c, s, i) == Settled(c, s, i)
      ensures Counted(s, i) <==> i in s.bits
    {
      assert IndexOk(c, s, i);
    }
    assert Credits(c, s) == seq(|c.sizes|, i requires 0 <= i < |c.sizes| => Settled(c, s, i));
  }

  /** What the client announces as left to download. */
  function Left(c: Config, s: State): int {
    c.Total() - s.downloaded
  }

  /** What each piece still misses. */
  function Missings(c: Config, s: State): seq<int> {
    seq(|c.sizes|, i requires 0 <= i < |c.sizes| => c.sizes[i] - Settled(c, s, i))
  }

  /** With no lock held past a last byte, what is left is what the pieces still miss. */
  lemma LeftExact(c: Config, run: seq<State>, steps: seq<Step>, k: nat)
    requires IsExecution(c, run, steps) && k < |run| && run[k].held == map[]
    ensures Left(c, run[k]) == Sum(Missings(c, run[k]))
  {
    hide IsExecution, Sum;
    SettledAccounting(c, run, steps, k);
    var settled := seq(|c.sizes|, i requires 0 <= i < |c.sizes| => Settled(c, run[k], i));
    assert run[k].downloaded == Sum(settled);
    hide Settled;
    SumDifference(c.sizes, settled);
    assert Missings(c, run[k]) == Differences(c.sizes, settled);
  }

  /**
    What is announced as left is never negative, is nothing once the download completed, and
    before that can be nothing only while some receiver still holds the lock of a full piece.
   */
  lemma LeftIsSane(c: Config, run: seq<State>, steps: seq<Step>, k: nat)
    requires IsExecution(c, run, steps) && k < |run|
    ensures 0 <= Left(c, run[k]) <= c.Total()
    ensures run[k].closed == 1 ==> Left(c, run[k]) == 0
    ensures Left(c, run[k]) == 0 ==>
              (forall i: nat :: i < |c.sizes| ==> i in run[k].bits) || run[k].held != map[]
  {
    hide Inv, Counted, Settled;
    ByteAccounting(c, run, steps, k);
    CompletionIsSound(c, run, steps, k);
    if run[k].held == map[] {
      SettledAccounting(c, run, steps, k);
    }
  }

  // ---------- Completion ----------

  /**
    `completed` is closed at most once, and then only with every slot empty, every bit set and
    every byte counted.
   */
  lemma CompletionIsSound(c: Config, run: seq<State>, steps: seq<Step>, k: nat)
    requires IsExecution(c, run, steps) && k < |run|
    ensures run[k].closed <= 1
    ensures run[k].closed == 1 ==>
              && run[k].slots == [None, None, None, None] && run[k].unverified == {}
              && (forall i :: i in run[k].bits <==> 0 <= i < |c.sizes|)
              && run[k].downloaded == c.Total()
  {
    hide ReceiversOk, Conserved;
    var s := run[k];
    Reachable(c, run, steps, k);
    ByteAccounting(c, run, steps, k);
    if s.closed == 1 {
      forall i: nat
        ensures i in s.bits <==> i < |c.sizes|
      {
        assert IndexOk(c, s, i);
      }
    }
  }

  // ---------- Bounded work ----------

  /** Blocks of piece `i` still to be started, sent or received. */
  function Remaining(c: Config, s: State, i: nat): nat
    requires i < |c.sizes|
  {
    if i in s.pieces then Work(s.pieces[i])
    else if i in s.bits then 0
    else 3 * |Tiling(i, 0, c.sizes[i])|
  }

  function Remainings(c: Config, s: State): seq<int> {
    seq(|c.sizes|, i requires 0 <= i < |c.sizes| => Remaining(c, s, i))
  }

  function Measure(c: Config, s: State): int {
    Sum(Remainings(c, s))
  }

  /** How many blocks a step starts, sends or stores. */
  function Progress(c: Config, s: State, step: Step): nat {
    match step
    case SweepSlot(w) =>
      if s.scheduler.Loaded? && s.scheduler.index in s.pieces then Sends(s.pieces[s.scheduler.index], w) else 0
    case StartPiece(i) => if i < |c.sizes| then |Tiling(i, 0, c.sizes[i])| else 0
    case Enter(r) =>
      if r in s.receivers && s.receivers[r].Found? && s.receivers[r].index in s.pieces
         && Receive(s.pieces[s.receivers[r].index], s.receivers[r].m).Stored? then 1 else 0
    case _ => 0
  }

  /** How many blocks a step puts back, by a time-out (once) or a retry (to be sent and received). */
  function Setback(c: Config, s: State, step: Step): nat {
    match step
    case SweepSlot(w) =>
      if s.scheduler.Loaded? && s.scheduler.index in s.pieces then TimeOuts(s.pieces[s.scheduler.index], w) else 0
    case RetryPiece(i) => if i < |c.sizes| then 2 * |Tiling(i, 0, c.sizes[i])| else 0
    case _ => 0
  }

  lemma MeasureMoves(c: Config, s: State, t: State, i: nat)
    requires i < |c.sizes|
    requires forall j :: 0 <= j < |c.sizes| && j != i ==> Remaining(c, s, j) == Remaining(c, t, j)
    ensures Measure(c, t) == Measure(c, s) + Remaining(c, t, i) - Remaining(c, s, i)
  {
    hide Remaining;
    SumUpdate(Remainings(c, s), i, Remaining(c, t, i));
    assert Remainings(c, t) == Remainings(c, s)[i := Remaining(c, t, i)];
  }

  lemma MeasureStays(c: Config, s: State, t: State)
    requires forall j :: 0 <= j < |c.sizes| ==> Remaining(c, s, j) == Remaining(c, t, j)
    ensures Measure(c, t) == Measure(c, s)
  {
    hide Remaining;
    assert Remainings(c, t) == Remainings(c, s);
  }

  /** The measure drops by the progress of a step and grows by its setback, exactly. */
  lemma MeasureStep(c: Config, s: State, step: Step)
    requires Inv(c, s) && Next(c, s, step).Some?
    ensures Measure(c, Next(c, s, step).value) + Progress(c, s, step) == Measure(c, s) + Setback(c, s, step)
    ensures 0 <= Measure(c, s)
    ensures step.StartPiece? ==> 0 < Progress(c, s, step)
  {
    hide Conserved, Work, Sum, Credits, Assemble, Start, Retry, SweepPiece, Receive, ReceiversOk, SlotsOk, Tiling;
    hide Measure, TimeOuts, Sends, NextEnter, NextSweepSlot;
    var t := Next(c, s, step).value;
    MeasureNonNegative(c, s);
    match step
    case SweepSlot(w) =>
      SweepMeasure(c, s, w);
    case StartPiece(i) =>
      assert IndexOk(c, s, i);
      StartWork(i, c.sizes[i]);
      MeasureMoves(c, s, t, i);
    case Enter(r) =>
      EnterMeasure(c, s, r);
    case Arrive(_, _) =>
      MeasureStays(c, s, t);
    case LookUp(_) =>
      MeasureStays(c, s, t);
    case Stop =>
      MeasureStays(c, s, t);
    case LoadSlot =>
      MeasureStays(c, s, t);
    case EndScan =>
      MeasureStays(c, s, t);
    case SeekSlot =>
      MeasureStays(c, s, t);
    case NoCandidate =>
      MeasureStays(c, s, t);
    case _ =>
      HolderMeasure(c, s, step, step.i);
  }

  lemma HolderMeasure(c: Config, s: State, step: Step, i: nat)
    requires Inv(c, s) && NextHolder(c, s, step, i).Some?
    requires step.RetryPiece? ==> step.i == i
    requires !step.SweepSlot? && !step.StartPiece? && !step.Enter?
    ensures Measure(c, NextHolder(c, s, step, i).value) + Progress(c, s, step) == Measure(c, s) + Setback(c, s, step)
  {
    hide Conserved, Work, Sum, Credits, Assemble, Retry, ReceiversOk, SlotsOk, SchedulerOk, Tiling, Measure;
    var t := NextHolder(c, s, step, i).value;
    assert IndexOk(c, s, i);
    if step.RetryPiece? {
      CompleteIsQuiet(s.pieces[i]);
      RetryConserves(s.pieces[i]);
      MeasureMoves(c, s, t, i);
    } else {
      MeasureStays(c, s, t);
    }
  }

  lemma SweepMeasure(c: Config, s: State, w: Sweep)
    requires Inv(c, s) && NextSweepSlot(s, w).Some?
    ensures Measure(c, NextSweepSlot(s, w).value) + Progress(c, s, SweepSlot(w))
            == Measure(c, s) + Setback(c, s, SweepSlot(w))
  {
    hide Conserved, Work, Sum, Credits, Assemble, SweepPiece, ReceiversOk, SlotsOk, Tiling, Measure, TimeOuts, Sends;
    var i := s.scheduler.index;
    assert IndexOk(c, s, i);
    SweepConserves(s.pieces[i], w);
    MeasureMoves(c, s, NextSweepSlot(s, w).value, i);
  }

  lemma EnterMeasure(c: Config, s: State, r: nat)
    requires Inv(c, s) && NextEnter(s, r).Some?
    ensures Measure(c, NextEnter(s, r).value) + Progress(c, s, Enter(r)) == Measure(c, s)
  {
    hide Conserved, Work, Sum, Credits, Assemble, Receive, Tiling, Measure;
    var t, v := NextEnter(s, r).value, s.receivers[r];
    assert ReceiverOk(s, v) && IndexOk(c, s, v.index);
    ReceiveConserves(s.pieces[v.index], v.m);
    if Receive(s.pieces[v.index], v.m).Stored? {
      MeasureMoves(c, s, t, v.index);
    } else {
      MeasureStays(c, s, t);
    }
  }

  lemma StartWork(i: nat, size: int)
    requires 0 < size < U32
    ensures Work(Start(i, size)) == 2 * |Tiling(i, 0, size)|
    ensures 0 < |Tiling(i, 0, size)|
  {
  }

  lemma MeasureNonNegative(c: Config, s: State)
    ensures 0 <= Measure(c, s)
  {
    hide Remaining;
    SumNonNegative(Remainings(c, s));
  }

  function TotalProgress(c: Config, run: seq<State>, steps: seq<Step>, k: nat): nat
    requires k <= |steps| && k <= |run|
  {
    if k == 0 then 0 else TotalProgress(c, run, steps, k - 1) + Progress(c, run[k - 1], steps[k - 1])
  }

  function TotalSetback(c: Config, run: seq<State>, steps: seq<Step>, k: nat): nat
    requires k <= |steps| && k <= |run|
  {
    if k == 0 then 0 else TotalSetback(c, run, steps, k - 1) + Setback(c, run[k - 1], steps[k - 1])
  }

  /**
    Over a run, blocks started, sent and stored are paid for by the initial measure and by
    time-outs and retries alone: without them the engine can make only finitely many such steps.
   */
  lemma {:induction false} WorkIsBounded(c: Config, run: seq<State>, steps: seq<Step>, k: nat)
    requires IsExecution(c, run, steps) && k <= |steps|
    ensures Measure(c, run[k]) + TotalProgress(c, run, steps, k)
            == Measure(c, run[0]) + TotalSetback(c, run, steps, k)
    ensures TotalProgress(c, run, steps, k) <= Measure(c, run[0]) + TotalSetback(c, run, steps, k)
  {
    hide Inv, Next, Measure, Progress, Setback;
    MeasureNonNegative(c, run[k]);
    if k > 0 {
      WorkIsBounded(c, run, steps, k - 1);
      Reachable(c, run, steps, k - 1);
      assert Next(c, run[k - 1], steps[k - 1]) == Some(run[k]);
      MeasureStep(c, run[k - 1], steps[k - 1]);
    }
  }

  /** Every send of every block is explained, in any reachable state, for every started piece. */
  lemma RequestsAreCounted(c: Config, run: seq<State>, steps: seq<Step>, k: nat, i: nat)
    requires IsExecution(c, run, steps) && k < |run| && i in run[k].pieces
    ensures var p := run[k].pieces[i];
            && i < |c.sizes|
            && |p.log.sent| == |p.log.expired| + |p.log.retried| + |p.inFlight|
            && (p.log.expired == [] && p.log.retried == [] ==> forall r :: Count(p.log.sent, r) <= 1)
            && (i in run[k].bits && p.log.expired == [] && p.log.retried == [] ==>
                  multiset(p.log.sent) == multiset(Tiling(i, 0, c.sizes[i])))
  {
    Reachable(c, run, steps, k);
    var p := run[k].pieces[i];
    assert IndexOk(c, run[k], i);
    RequestCounting(p);
    SameElementsMultiset(p.log.sent, Tiling(i, 0, c.sizes[i]));
  }
}
