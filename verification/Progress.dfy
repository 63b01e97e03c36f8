/** The download engine never gets stuck, and can complete as long as somebody has the data. */
module Progress {
  import opened Base
  import opened Messages
  import opened Pending
  import opened Conservation
  import opened Reassembly
  import opened Download
  import opened DownloadInvariant
  import opened DownloadTheorems

  // ---------- Reachability ----------

  function Exec(c: Config, s: State, steps: seq<Step>): Option<State>
    decreases |steps|
  {
    if |steps| == 0 then Some(s)
    else
      match Next(c, s, steps[0])
      case None => None
      case Some(t) => Exec(c, t, steps[1..])
  }

  /** Some steps lead from `s` to `t`, and the invariant holds there. */
  ghost predicate Leads(c: Config, s: State, t: State) {
    exists steps :: Exec(c, s, steps) == Some(t) && Inv(c, t)
  }

  lemma {:induction false} ExecJoins(c: Config, s: State, a: seq<Step>, b: seq<Step>)
    ensures Exec(c, s, a + b) == match Exec(c, s, a) case None => None case Some(t) => Exec(c, t, b)
    decreases |a|
  {
    hide Next;
    if |a| == 0 {
      assert a + b == b;
    } else {
      assert (a + b)[0] == a[0] && (a + b)[1..] == a[1..] + b;
      if Next(c, s, a[0]).Some? {
        ExecJoins(c, Next(c, s, a[0]).value, a[1..], b);
      }
    }
  }

  lemma Stays(c: Config, s: State)
    requires Inv(c, s)
    ensures Leads(c, s, s)
  {
    hide Inv;
    assert Exec(c, s, []) == Some(s);
  }

  lemma Then(c: Config, s: State, t: State, u: State)
    requires Leads(c, s, t) && Leads(c, t, u)
    ensures Leads(c, s, u)
  {
    hide Inv, Next;
    var a :| Exec(c, s, a) == Some(t);
    var b :| Exec(c, t, b) == Some(u) && Inv(c, u);
    ExecJoins(c, s, a, b);
    assert Exec(c, s, a + b) == Some(u);
  }

  /** One step, which keeps the invariant. */
  lemma Take(c: Config, s: State, step: Step) returns (t: State)
    requires Inv(c, s) && Next(c, s, step).Some?
    ensures t == Next(c, s, step).value && Leads(c, s, t)
  {
    hide Inv, Next;
    t := Next(c, s, step).value;
    StepKeepsInv(c, s, step);
    assert Exec(c, t, []) == Some(t) && [step][1..] == [];
    assert Exec(c, s, [step]) == Some(t);
  }

  // ---------- No state is stuck ----------

  /** The step a lock holder takes next. */
  function HolderStep(i: nat, stage: Stage): Step {
    match stage
    case Checking(_) => CheckHash(i)
    case Rejected => RollBack(i)
    case RolledBack => RetryPiece(i)
    case Flushing(_) => WriteAll(i)
    case Flushed => SetBit(i)
    case Recorded => ReleaseSlot(i)
    case Released => Unlock(i)
  }

  lemma HolderCanStep(c: Config, s: State, i: nat)
    requires Inv(c, s) && i in s.held
    ensures Next(c, s, HolderStep(i, s.held[i].stage)).Some?
  {
    hide Conserved, Assemble, Retry, Sum, Credits;
    assert IndexOk(c, s, i);
  }

  /** Some step of the scheduler or of a lock holder is enabled until the scheduler ends. */
  lemma NeverStuck(c: Config, run: seq<State>, steps: seq<Step>, k: nat) returns (step: Step)
    requires IsExecution(c, run, steps) && k < |run|
    requires !run[k].scheduler.Finished? && !run[k].scheduler.Stopped?
    ensures Next(c, run[k], step).Some? && !step.Arrive? && !step.LookUp? && !step.Enter? && !step.Stop?
  {
    hide IsExecution, Conserved, Assemble, Retry, Sum, Credits, SweepPiece;
    var s := run[k];
    Reachable(c, run, steps, k);
    match s.scheduler
    case Scanning(j, free) => step := if j < SLOTS then LoadSlot else EndScan;
    case Choosing(_) => step := SeekSlot;
    case Placing(_) => step := NoCandidate;
    case Loaded(_, _, i) =>
      if i in s.held {
        HolderCanStep(c, s, i);
        step := HolderStep(i, s.held[i].stage);
      } else {
        step := SweepSlot(Sweep((n: nat) => 0, (n: nat) => true, (n: nat) => 0));
      }
  }

  // ---------- Locks are released ----------

  /** The same apart from piece `i`, the files and the counter. */
  ghost predicate SameBut(s: State, t: State, i: nat) {
    && t.scheduler == s.scheduler && t.unverified == s.unverified && t.pieces.Keys == s.pieces.Keys
    && t.held == s.held - {i} && s.bits <= t.bits <= s.bits + {i} && t.closed == s.closed
  }

  /** Piece `i` starts over. */
  ghost predicate Emptied(s: State, t: State, i: nat) {
    i in t.pieces && t.pieces[i].received == [] && t.slots == s.slots
  }

  predicate WillVerify(c: Config, i: nat, stage: Stage) {
    match stage
    case Checking(data) => c.Good(i, data)
    case Rejected => false
    case RolledBack => false
    case _ => true
  }

  function Rank(stage: Stage): nat {
    match stage
    case Checking(_) => 6
    case Flushing(_) => 5
    case Flushed => 4
    case Recorded => 3
    case Released => 2
    case Rejected => 3
    case RolledBack => 2
  }

  /**
    A holder can release its lock. If it had good data in hand, or none to check any more, the
    piece is verified then; otherwise it starts over with nothing received.
   */
  lemma {:induction false} Release(c: Config, s: State, i: nat) returns (t: State)
    requires Inv(c, s) && i in s.held
    ensures Leads(c, s, t) && SameBut(s, t, i)
    ensures !WillVerify(c, i, s.held[i].stage) ==> Emptied(s, t, i)
    ensures WillVerify(c, i, s.held[i].stage) ==> i in t.bits
    decreases Rank(s.held[i].stage)
  {
    HolderCanStep(c, s, i);
    assert IndexOk(c, s, i);
    var stage := s.held[i].stage;
    var u := Take(c, s, HolderStep(i, stage));
    HolderMoves(c, s, i);
    hide Inv, Next;
    hide IndexOk;
    if i in u.held {
      t := Release(c, u, i);
      Then(c, s, u, t);
      assert u.held - {i} == s.held - {i};
    } else {
      t := u;
    }
  }

  lemma HeldFacts(c: Config, s: State, i: nat)
    requires Inv(c, s) && i in s.held
    ensures i in s.pieces && i < |c.sizes| == |c.hashes| && HoldOk(c, s, i)
    ensures Conserved(s.pieces[i]) && s.pieces[i].size == c.sizes[i]
  {
    assert IndexOk(c, s, i);
  }

  lemma RetryEmpties(p: PieceState)
    ensures Retry(p).Some? ==> Retry(p).value.received == []
  {
  }

  /** What one step of a holder does, as far as `Release` has to know. */
  lemma HolderMoves(c: Config, s: State, i: nat)
    requires Inv(c, s) && i in s.held && Next(c, s, HolderStep(i, s.held[i].stage)).Some?
    ensures var stage, u := s.held[i].stage, Next(c, s, HolderStep(i, s.held[i].stage)).value;
            && u.scheduler == s.scheduler && u.unverified == s.unverified && u.pieces.Keys == s.pieces.Keys
            && s.bits <= u.bits <= s.bits + {i} && u.closed == s.closed && u.held - {i} == s.held - {i}
            && (i in u.held ==> Rank(u.held[i].stage) < Rank(stage))
            && (i in u.held && WillVerify(c, i, stage) ==> WillVerify(c, i, u.held[i].stage))
            && (i !in u.held && WillVerify(c, i, stage) ==> i in u.bits)
            && (i in u.held && !WillVerify(c, i, stage) ==>
                  u.slots == s.slots && (u.held[i].stage.Rejected? || u.held[i].stage.RolledBack?))
            && (i !in u.held && !WillVerify(c, i, stage) ==> Emptied(s, u, i))
  {
    HeldFacts(c, s, i);
    hide Inv, IndexOk, Conserved, Complete, Assemble, Retry;
    if s.held[i].stage.RolledBack? {
      RetryConserves(s.pieces[i]);
      RetryEmpties(s.pieces[i]);
    } else if s.held[i].stage.Checking? {
      AssembledSize(s.pieces[i]);
    }
  }

  /** All locks can be released, without touching the scheduler. */
  lemma {:induction false} ReleaseAll(c: Config, s: State) returns (t: State)
    requires Inv(c, s)
    ensures Leads(c, s, t) && t.held == map[]
    ensures t.scheduler == s.scheduler && s.bits <= t.bits <= s.bits + s.held.Keys && t.closed == s.closed
    decreases |s.held|
  {
    hide Inv, Next, SameBut;
    if s.held == map[] {
      t := s;
      Stays(c, s);
    } else {
      var i :| i in s.held;
      var u := Release(c, s, i);
      SameButFacts(s, u, i);
      t := ReleaseAll(c, u);
      Then(c, s, u, t);
    }
  }

  lemma SameButFacts(s: State, t: State, i: nat)
    requires SameBut(s, t, i) && i in s.held
    ensures t.scheduler == s.scheduler && s.bits <= t.bits <= s.bits + {i} && t.closed == s.closed
    ensures |t.held| < |s.held| && t.held.Keys <= s.held.Keys
  {
    assert t.held.Keys == s.held.Keys - {i};
    assert |t.held| == |t.held.Keys| && |s.held| == |s.held.Keys|;
  }

  // ---------- The scheduler comes round ----------

  function Eager(): Sweep {
    Sweep((k: nat) => 0, (k: nat) => true, (k: nat) => 0)
  }

  lemma {:induction false} NoneUnsent(pending: seq<Request>, n: nat)
    requires n <= |pending|
    ensures Unsent(pending, Eager().ok, n) == []
  {
    if n > 0 {
      NoneUnsent(pending, n - 1);
    }
  }

  lemma EagerSends(p: PieceState)
    requires Conserved(p)
    ensures var q := SweepPiece(p, Eager());
            q.pending == [] && q.received == p.received
  {
    hide Conserved;
    NoneUnsent(TimeOut(p, Eager().checked).pending, |TimeOut(p, Eager().checked).pending|);
    SweepConserves(p, Eager());
  }

  /** Scheduler steps change the requests of pieces only, and here they only send. */
  ghost predicate Scanned(s: State, t: State) {
    && t.slots == s.slots && t.held == s.held && t.unverified == s.unverified && t.bits == s.bits
    && t.receivers == s.receivers && t.pieces.Keys == s.pieces.Keys
    && forall x <- s.pieces ::
         && t.pieces[x].received == s.pieces[x].received
         && (s.pieces[x].pending == [] ==> t.pieces[x].pending == [])
  }

  lemma ScannedTwice(s: State, t: State, u: State)
    requires Scanned(s, t) && Scanned(t, u)
    ensures Scanned(s, u)
  {
  }

  lemma ScannedSame(s: State, t: State)
    requires t == s.(scheduler := t.scheduler, closed := t.closed)
    ensures Scanned(s, t)
  {
  }

  /** Takes one scheduler step that changes nothing but the scheduler. */
  lemma TakeScan(c: Config, s: State, step: Step) returns (t: State)
    requires Inv(c, s) && Next(c, s, step).Some?
    requires step.LoadSlot? || step.EndScan? || step.SeekSlot? || step.NoCandidate?
    ensures t == Next(c, s, step).value && Leads(c, s, t) && Scanned(s, t)
  {
    t := Take(c, s, step);
    ScanScheduler(c, s, step) by {
      hide IndexOk, ReceiversOk;
    }
    ScannedSame(s, t);
  }

  ghost predicate AtStart(s: State) {
    s.scheduler == Scanning(0, 0) && s.held == map[]
  }

  /** From wherever it looks for a place, the scheduler can give up and start over. */
  lemma {:induction false} GiveUp(c: Config, s: State) returns (t: State)
    requires Inv(c, s) && s.held == map[] && (s.scheduler.Choosing? || s.scheduler.Placing?)
    ensures Leads(c, s, t) && Scanned(s, t) && AtStart(t)
    decreases s.scheduler.Choosing?, if s.scheduler.Choosing? && s.scheduler.next < SLOTS then SLOTS - s.scheduler.next else 0
  {
    if s.scheduler.Placing? {
      t := TakeScan(c, s, NoCandidate);
    } else {
      var u := TakeScan(c, s, SeekSlot);
      hide Inv, Next;
      if u.scheduler.Scanning? {
        t := u;
      } else {
        t := GiveUp(c, u);
        Then(c, s, u, t);
        ScannedTwice(s, u, t);
      }
    }
  }

  /** The rest of a scan sends what is pending in the slots it still visits. */
  lemma {:induction false} ScanOn(c: Config, s: State) returns (t: State)
    requires Inv(c, s) && s.held == map[] && s.scheduler.Scanning?
    ensures Leads(c, s, t) && Scanned(s, t) && (AtStart(t) || t.closed == 1)
    ensures forall j :: s.scheduler.next <= j < |s.slots| && s.slots[j].Some? && s.slots[j].value in s.pieces ==>
              t.pieces[s.slots[j].value].pending == []
    decreases if s.scheduler.next < SLOTS then SLOTS - s.scheduler.next else 0
  {
    hide Inv, Next;
    SlotCount(c, s);
    var k := s.scheduler.next;
    if k < SLOTS {
      LoadSlotFacts(c, s);
      var u := TakeScan(c, s, LoadSlot);
      if s.slots[k].Some? {
        var v := SweepEagerly(c, u);
          t := ScanOn(c, v);
        Then(c, u, v, t);
        Then(c, s, u, t);
        ScannedTwice(s, u, v);
        ScannedTwice(s, v, t);
      } else {
          t := ScanOn(c, u);
        Then(c, s, u, t);
        ScannedTwice(s, u, t);
      }
    } else {
      EndScanFacts(c, s);
      var u := TakeScan(c, s, EndScan);
      if u.scheduler.Choosing? {
        t := GiveUp(c, u);
        Then(c, s, u, t);
        ScannedTwice(s, u, t);
      } else {
        t := u;
      }
    }
  }

  lemma SlotCount(c: Config, s: State)
    requires Inv(c, s)
    ensures |s.slots| == SLOTS && s.closed == (if s.scheduler.Finished? then 1 else 0)
    ensures s.scheduler.Scanning? ==> s.scheduler.next <= SLOTS
    ensures forall j :: 0 <= j < |s.slots| && s.slots[j].Some? ==> s.slots[j].value in s.pieces
  {
  }

  lemma LoadSlotFacts(c: Config, s: State)
    requires Inv(c, s) && s.scheduler.Scanning? && s.scheduler.next < SLOTS
    ensures var t, k := Next(c, s, LoadSlot).value, s.scheduler.next;
            && k < |s.slots| && Next(c, s, LoadSlot).Some?
            && t.scheduler == match s.slots[k]
                              case None => Scanning(k + 1, s.scheduler.free + 1)
                              case Some(i) => Loaded(k, s.scheduler.free, i)
  {
  }

  lemma EndScanFacts(c: Config, s: State)
    requires Inv(c, s) && s.scheduler.Scanning? && s.scheduler.next == SLOTS
    ensures Next(c, s, EndScan).Some?
    ensures var t := Next(c, s, EndScan).value;
            t.scheduler == Choosing(0) || t.scheduler == Scanning(0, 0) || t.closed == 1
  {
  }

  lemma SweepEagerly(c: Config, s: State) returns (t: State)
    requires Inv(c, s) && s.held == map[] && s.scheduler.Loaded?
    ensures Leads(c, s, t) && Scanned(s, t)
    ensures t.scheduler == Scanning(s.scheduler.next + 1, s.scheduler.free)
    ensures s.scheduler.index in t.pieces && t.pieces[s.scheduler.index].pending == []
  {
    hide Conserved, SweepPiece, Sum, Credits, Assemble;
    var i := s.scheduler.index;
    assert IndexOk(c, s, i);
    t := Take(c, s, SweepSlot(Eager()));
    EagerSends(s.pieces[i]);
  }
}
