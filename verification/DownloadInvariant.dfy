/** The invariant of the download engine, and the proof that every step keeps it. */
module DownloadInvariant {
  import opened Base
  import opened Pending
  import opened Conservation
  import opened Reassembly
  import opened Download

  // ---------- The invariant, index by index ----------

  /** Between critical sections a piece is in its slot and incomplete, or verified and in none. */
  ghost predicate Resting(s: State, i: nat)
    requires i in s.pieces
  {
    (Complete(s.pieces[i]) <==> i in s.bits) && (Some(i) in s.slots <==> i !in s.bits)
  }

  /** A piece whose lock is held past its last byte is complete, and what its holder knows is true. */
  ghost predicate HoldOk(c: Config, s: State, i: nat)
    requires i in s.held
  {
    && i in s.pieces && Complete(s.pieces[i])
    && var h := s.held[i];
       && h.slot < |s.slots|
       && (if h.stage.Released? then Some(i) !in s.slots else s.slots[h.slot] == Some(i))
       && (i in s.bits <==> h.stage.Recorded? || h.stage.Released?)
       && (h.stage.Checking? ==> h.stage.data == Assemble(s.pieces[i]))
       && (h.stage.Flushing? ==> c.Good(i, h.stage.data))
       && (h.stage.Flushed? ==> i in s.disk && c.Good(i, s.disk[i]))
  }

  /**
    An index is unverified, or has a piece object, or was verified before this run; its block
    requests are conserved, and a set bit means a verified file.
   */
  ghost predicate IndexOk(c: Config, s: State, i: nat) {
    && (i in s.unverified <==> i < |c.sizes| && i !in s.pieces && i !in s.bits)
    && (i in s.bits ==> i < |c.sizes| && i in s.disk && c.Good(i, s.disk[i]))
    && (i in s.pieces ==>
          && i < |c.sizes| && s.pieces[i].index == i && s.pieces[i].size == c.sizes[i]
          && Conserved(s.pieces[i]))
    && (i in s.pieces && i !in s.held ==> Resting(s, i))
    && (i in s.held ==> HoldOk(c, s, i))
  }

  ghost predicate SlotsOk(s: State) {
    && |s.slots| == SLOTS
    && (forall j, k :: 0 <= j < k < |s.slots| && s.slots[j].Some? ==> s.slots[j] != s.slots[k])
    && (forall j :: 0 <= j < |s.slots| && s.slots[j].Some? ==> s.slots[j].value in s.pieces)
  }

  /** A receiver's pointer may be stale, but only to a verified piece that left its slot. */
  ghost predicate ReceiverOk(s: State, v: Receiver) {
    && |v.m.block| < U32
    && (v.Found? ==>
          && v.m.index == v.index && v.slot < |s.slots| && v.index in s.pieces
          && (s.slots[v.slot] == Some(v.index) || (v.index in s.bits && Some(v.index) !in s.slots)))
  }

  ghost predicate ReceiversOk(s: State) {
    forall r <- s.receivers :: ReceiverOk(s, s.receivers[r])
  }

  /** The bytes of piece `i` that the global counter includes. */
  function Credit(c: Config, s: State, i: nat): int
    requires i < |c.sizes|
  {
    if i !in s.pieces then (if i in s.bits then c.sizes[i] else 0)
    else if i in s.held && s.held[i].stage.RolledBack? then 0
    else s.pieces[i].downloaded
  }

  function Credits(c: Config, s: State): seq<int> {
    seq(|c.sizes|, i requires 0 <= i < |c.sizes| => Credit(c, s, i))
  }

  ghost predicate AllFree(slots: seq<Option<nat>>, n: nat) {
    n <= |slots| && forall j :: 0 <= j < n ==> slots[j] == None
  }

  ghost predicate SchedulerOk(s: State) {
    && s.closed == (if s.scheduler.Finished? then 1 else 0)
    && match s.scheduler
       case Scanning(k, free) => k <= |s.slots| && free <= k && (free == k ==> AllFree(s.slots, k))
       case Loaded(k, free, i) => k < |s.slots| && free <= k && i in s.pieces
       case Choosing(j) => true
       case Placing(slot) => slot < |s.slots| && s.slots[slot] == None
       case Finished => s.unverified == {} && AllFree(s.slots, |s.slots|)
       case Stopped => true
  }

  ghost predicate Inv(c: Config, s: State) {
    && c.Valid()
    && (forall i :: IndexOk(c, s, i))
    && SlotsOk(s)
    && ReceiversOk(s)
    && SchedulerOk(s)
    && s.downloaded == Sum(Credits(c, s))
    && s.faults == {}
  }

  // ---------- It holds at the start ----------

  lemma {:induction false} ExistingIsCredit(c: Config, s: State, n: nat)
    requires c.Valid() && s.pieces == map[] && n <= |c.sizes|
    ensures Existing(c, s.bits, n) == Sum(Credits(c, s)[..n])
  {
    if n > 0 {
      ExistingIsCredit(c, s, n - 1);
      assert Credits(c, s)[..n][..n - 1] == Credits(c, s)[..n - 1];
    }
  }

  ghost predicate StorageOk(c: Config, bits: set<nat>, disk: map<nat, Bytes>) {
    forall i <- bits :: i in disk && c.Good(i, disk[i])
  }

  /** A tracker opened on verified files satisfies the invariant. */
  lemma InitInv(c: Config, bits: set<nat>, disk: map<nat, Bytes>)
    requires c.Valid() && StorageOk(c, bits, disk)
    ensures Inv(c, NewTracker(c, bits, disk))
  {
    var s := NewTracker(c, bits, disk);
    ExistingIsCredit(c, s, |c.sizes|);
    assert Credits(c, s)[..|c.sizes|] == Credits(c, s);
    forall i
      ensures IndexOk(c, s, i)
    {
    }
  }

  // ---------- A step touches one piece ----------

  /** What the invariant says of index `j` depends on these parts of the state only. */
  ghost predicate SameAt(s: State, t: State, j: nat) {
    && (j in s.pieces <==> j in t.pieces) && (j in s.pieces ==> s.pieces[j] == t.pieces[j])
    && (j in s.held <==> j in t.held) && (j in s.held ==> s.held[j] == t.held[j])
    && (j in s.bits <==> j in t.bits) && (j in s.unverified <==> j in t.unverified)
    && (j in s.disk <==> j in t.disk) && (j in s.disk ==> s.disk[j] == t.disk[j])
    && |s.slots| == |t.slots|
    && forall k :: 0 <= k < |s.slots| ==> (s.slots[k] == Some(j) <==> t.slots[k] == Some(j))
  }

  ghost predicate SameElsewhere(s: State, t: State, i: nat) {
    forall j :: j != i ==> SameAt(s, t, j)
  }

  lemma FrameIndex(c: Config, s: State, t: State, j: nat)
    requires IndexOk(c, s, j) && SameAt(s, t, j)
    ensures IndexOk(c, t, j)
    ensures j < |c.sizes| ==> Credit(c, s, j) == Credit(c, t, j)
  {
    hide Conserved, Complete, Assemble;
    SlotMembership(s, t, j);
  }

  lemma SlotMembership(s: State, t: State, j: nat)
    requires |s.slots| == |t.slots|
    requires forall k :: 0 <= k < |s.slots| ==> (s.slots[k] == Some(j) <==> t.slots[k] == Some(j))
    ensures Some(j) in s.slots <==> Some(j) in t.slots
  {
    if Some(j) in s.slots {
      var k :| 0 <= k < |s.slots| && s.slots[k] == Some(j);
      assert t.slots[k] == Some(j);
    }
    if Some(j) in t.slots {
      var k :| 0 <= k < |s.slots| && t.slots[k] == Some(j);
      assert s.slots[k] == Some(j);
    }
  }

  /** A step that touches one piece has to re-establish the invariant for that piece alone. */
  lemma Frame(c: Config, s: State, t: State, i: nat)
    requires forall j :: IndexOk(c, s, j)
    requires SameElsewhere(s, t, i) && IndexOk(c, t, i)
    ensures forall j :: IndexOk(c, t, j)
    ensures i < |c.sizes| ==> Sum(Credits(c, t)) == Sum(Credits(c, s)) + Credit(c, t, i) - Credit(c, s, i)
  {
    hide IndexOk, SameAt, Credit;
    forall j: nat
      ensures IndexOk(c, t, j)
      ensures j != i && j < |c.sizes| ==> Credit(c, s, j) == Credit(c, t, j)
    {
      if j != i {
        assert SameAt(s, t, j) && IndexOk(c, s, j);
        FrameIndex(c, s, t, j);
      }
    }
    if i < |c.sizes| {
      SumUpdate(Credits(c, s), i, Credit(c, t, i));
      assert Credits(c, t) == Credits(c, s)[i := Credit(c, t, i)];
    }
  }

  /** A step that leaves pieces, slots, bits and files alone keeps what is said about them. */
  lemma FrameAll(c: Config, s: State, t: State)
    requires forall j :: IndexOk(c, s, j)
    requires s.pieces == t.pieces && s.held == t.held && s.bits == t.bits && s.disk == t.disk
    requires s.slots == t.slots && s.unverified == t.unverified
    ensures forall j :: IndexOk(c, t, j)
    ensures Credits(c, t) == Credits(c, s)
  {
    hide IndexOk, Credit;
    forall j: nat
      ensures IndexOk(c, t, j)
      ensures j < |c.sizes| ==> Credit(c, s, j) == Credit(c, t, j)
    {
      assert IndexOk(c, s, j);
      FrameIndex(c, s, t, j);
    }
  }

  // ---------- Scheduler steps ----------

  lemma KeepScan(c: Config, s: State, step: Step)
    requires Inv(c, s) && Next(c, s, step).Some?
    requires step.Stop? || step.LoadSlot? || step.EndScan? || step.SeekSlot? || step.NoCandidate?
    ensures Inv(c, Next(c, s, step).value)
  {
    var t := Next(c, s, step).value;
    ScanScheduler(c, s, step);
    hide IndexOk, ReceiverOk, Sum, Credits, SchedulerOk, SlotsOk, Next;
    FrameAll(c, s, t);
    SameReceivers(s, t);
  }

  lemma ScanScheduler(c: Config, s: State, step: Step)
    requires SlotsOk(s) && SchedulerOk(s) && Next(c, s, step).Some?
    requires step.Stop? || step.LoadSlot? || step.EndScan? || step.SeekSlot? || step.NoCandidate?
    ensures var t := Next(c, s, step).value;
            SchedulerOk(t) && SlotsOk(t) && t == s.(scheduler := t.scheduler, closed := t.closed)
  {
    hide NextSweepSlot, NextStartPiece, NextEnter, NextHolder, NextLookUp, AllFree;
    AllFreeNext(s.slots);
  }

  lemma AllFreeNext(slots: seq<Option<nat>>)
    ensures AllFree(slots, 0)
    ensures forall k: nat :: AllFree(slots, k) && k < |slots| && slots[k] == None ==> AllFree(slots, k + 1)
  {
  }

  lemma SameReceivers(s: State, t: State)
    requires ReceiversOk(s) && s.slots == t.slots && s.bits == t.bits
    requires s.pieces.Keys <= t.pieces.Keys
    requires forall r <- t.receivers :: r in s.receivers && t.receivers[r] == s.receivers[r]
    ensures ReceiversOk(t)
  {
    forall r <- t.receivers
      ensures ReceiverOk(t, t.receivers[r])
    {
      assert ReceiverOk(s, s.receivers[r]);
    }
  }

  lemma KeepSweepSlot(c: Config, s: State, w: Sweep)
    requires Inv(c, s) && NextSweepSlot(s, w).Some?
    ensures Inv(c, NextSweepSlot(s, w).value)
  {
    hide Conserved, SweepPiece, Sum, Credits, Assemble;
    var t, i := NextSweepSlot(s, w).value, s.scheduler.index;
    assert IndexOk(c, s, i);
    SweepConserves(s.pieces[i], w);
    Frame(c, s, t, i);
  }

  lemma KeepStartPiece(c: Config, s: State, i: nat)
    requires Inv(c, s) && NextStartPiece(c, s, i).Some?
    ensures Inv(c, NextStartPiece(c, s, i).value)
  {
    hide Conserved, Start, Sum, Credits, Assemble;
    var t, slot := NextStartPiece(c, s, i).value, s.scheduler.slot;
    assert IndexOk(c, s, i);
    StartShape(i, c.sizes[i]);
    assert t.slots[slot] == Some(i);
    Frame(c, s, t, i);
    forall r <- t.receivers
      ensures ReceiverOk(t, t.receivers[r])
    {
      var v := t.receivers[r];
      assert ReceiverOk(s, v);
      if v.Found? {
        assert SameAt(s, t, v.index);
        SlotMembership(s, t, v.index);
      }
    }
  }

  lemma StartShape(i: int, size: int)
    requires 0 < size < U32
    ensures var p := Start(i, size);
            Conserved(p) && !Complete(p) && p.index == i && p.size == size && p.downloaded == 0
  {
    StartConserves(i, size);
  }

  // ---------- Receiver steps ----------

  lemma KeepReceivers(c: Config, s: State, step: Step)
    requires Inv(c, s) && Next(c, s, step).Some? && (step.Arrive? || step.LookUp?)
    ensures Inv(c, Next(c, s, step).value)
  {
    hide IndexOk, Sum, Credits, ReceiverOk, NextHolder, NextSweepSlot, NextStartPiece, NextEnter;
    var t, r := Next(c, s, step).value, step.r;
    FrameAll(c, s, t);
    forall k <- t.receivers
      ensures ReceiverOk(t, t.receivers[k])
    {
      if k == r {
        ReceiverSteps(c, s, step);
      } else {
        SameReceiver(s, t, s.receivers[k]);
      }
    }
  }

  lemma SameReceiver(s: State, t: State, v: Receiver)
    requires ReceiverOk(s, v) && s.slots == t.slots && s.bits == t.bits && s.pieces == t.pieces
    ensures ReceiverOk(t, v)
  {
  }

  lemma ReceiverSteps(c: Config, s: State, step: Step)
    requires SlotsOk(s) && Next(c, s, step).Some? && (step.Arrive? || step.LookUp?)
    requires step.r in s.receivers ==> ReceiverOk(s, s.receivers[step.r])
    ensures var t := Next(c, s, step).value;
            step.r in t.receivers ==> ReceiverOk(t, t.receivers[step.r])
  {
    hide NextHolder, NextEnter;
  }

  lemma KeepEnter(c: Config, s: State, r: nat)
    requires Inv(c, s) && NextEnter(s, r).Some?
    ensures Inv(c, NextEnter(s, r).value)
  {
    var t, v := NextEnter(s, r).value, s.receivers[r];
    assert ReceiverOk(s, v) && IndexOk(c, s, v.index);
    EnterIndex(c, s, r);
    EnterKeeps(s, r);
    hide NextEnter, IndexOk, Sum, Credits, Credit, Receive, ReceiverOk;
    if Receive(s.pieces[v.index], v.m).Stored? {
      Frame(c, s, t, v.index);
    } else {
      FrameAll(c, s, t);
    }
    SameReceivers(s, t);
  }

  lemma EnterKeeps(s: State, r: nat)
    requires NextEnter(s, r).Some? && s.receivers[r].index in s.pieces
    requires !Receive(s.pieces[s.receivers[r].index], s.receivers[r].m).Overflow?
    ensures var t, v := NextEnter(s, r).value, s.receivers[r];
            && t == s.(pieces := t.pieces, held := t.held, receivers := s.receivers - {r}, downloaded := t.downloaded)
            && s.pieces.Keys <= t.pieces.Keys
            && (if Receive(s.pieces[v.index], v.m).Stored?
                then SameElsewhere(s, t, v.index) && t.downloaded == s.downloaded + |v.m.block|
                else t.pieces == s.pieces && t.held == s.held && t.downloaded == s.downloaded)
  {
    hide Receive, Complete, Assemble;
  }

  lemma EnterIndex(c: Config, s: State, r: nat)
    requires c.Valid() && ReceiversOk(s) && NextEnter(s, r).Some? && IndexOk(c, s, s.receivers[r].index)
    ensures var i, v, t := s.receivers[r].index, s.receivers[r], NextEnter(s, r).value;
            && i in s.pieces && i < |c.sizes|
            && !Receive(s.pieces[i], v.m).Overflow?
            && (Receive(s.pieces[i], v.m).Stored? ==>
                  && IndexOk(c, t, i) && Credit(c, t, i) == Credit(c, s, i) + |v.m.block|)
  {
    hide Conserved, Assemble, Receive, Sum;
    var v := s.receivers[r];
    assert ReceiverOk(s, v);
    ReceiveConserves(s.pieces[v.index], v.m);
    Accounting(s.pieces[v.index]);
    if Receive(s.pieces[v.index], v.m).Stored? {
      Accounting(Receive(s.pieces[v.index], v.m).piece);
    }
  }

  // ---------- Steps of a lock holder ----------

  /** Files and stages of a held piece do not concern slots, receivers or the scheduler. */
  lemma KeepHolder(c: Config, s: State, step: Step, i: nat)
    requires Inv(c, s) && NextHolder(c, s, step, i).Some?
    requires !step.ReleaseSlot?
    requires var t := NextHolder(c, s, step, i).value;
             IndexOk(c, t, i) && i in t.pieces && t.faults == {}
             && t.downloaded == s.downloaded + Credit(c, t, i) - Credit(c, s, i)
    ensures Inv(c, NextHolder(c, s, step, i).value)
  {
    HolderKeeps(c, s, step, i);
    hide IndexOk, Sum, Credits, Credit, NextHolder, SameElsewhere, ReceiverOk;
    var t := NextHolder(c, s, step, i).value;
    Frame(c, s, t, i);
    forall r <- t.receivers
      ensures ReceiverOk(t, t.receivers[r])
    {
      assert ReceiverOk(s, s.receivers[r]);
      HolderKeepsReceiver(s, t, s.receivers[r]);
    }
  }

  lemma HolderKeeps(c: Config, s: State, step: Step, i: nat)
    requires NextHolder(c, s, step, i).Some? && !step.ReleaseSlot?
    ensures var t := NextHolder(c, s, step, i).value;
            && SameElsewhere(s, t, i) && s.bits <= t.bits && s.pieces.Keys <= t.pieces.Keys
            && t == s.(pieces := t.pieces, held := t.held, bits := t.bits, disk := t.disk,
                       downloaded := t.downloaded, faults := t.faults)
  {
    hide Assemble, Retry;
  }

  lemma HolderKeepsReceiver(s: State, t: State, v: Receiver)
    requires ReceiverOk(s, v) && s.slots == t.slots && s.bits <= t.bits && s.pieces.Keys <= t.pieces.Keys
    ensures ReceiverOk(t, v)
  {
  }

  lemma KeepCheckHash(c: Config, s: State, step: Step, i: nat)
    requires Inv(c, s) && NextHolder(c, s, step, i).Some? && step.CheckHash?
    ensures Inv(c, NextHolder(c, s, step, i).value)
  {
    hide Conserved, Sum, Credits, Assemble;
    assert IndexOk(c, s, i);
    AssembledSize(s.pieces[i]);
    KeepHolder(c, s, step, i);
  }

  lemma AssembledSize(p: PieceState)
    requires Conserved(p) && Complete(p)
    ensures |Assemble(p)| == p.size
  {
    SortByBeginSorts(p.received);
    OrderIndependent(p, SortByBegin(p.received));
  }

  lemma KeepFileStep(c: Config, s: State, step: Step, i: nat)
    requires Inv(c, s) && NextHolder(c, s, step, i).Some?
    requires step.WritePart? || step.WriteAll? || step.WriteFails? || step.SetBit? || step.Unlock? || step.RollBack?
    ensures Inv(c, NextHolder(c, s, step, i).value)
  {
    hide Conserved, Sum, Credits, Assemble;
    assert IndexOk(c, s, i);
    KeepHolder(c, s, step, i);
  }

  lemma KeepRetry(c: Config, s: State, step: Step, i: nat)
    requires Inv(c, s) && NextHolder(c, s, step, i).Some? && step.RetryPiece?
    ensures Inv(c, NextHolder(c, s, step, i).value)
  {
    hide Conserved, Sum, Credits, Assemble, Retry;
    assert IndexOk(c, s, i);
    RetryConserves(s.pieces[i]);
    assert Some(i) in s.slots;
    KeepHolder(c, s, step, i);
  }

  lemma KeepRelease(c: Config, s: State, step: Step, i: nat)
    requires Inv(c, s) && NextHolder(c, s, step, i).Some? && step.ReleaseSlot?
    ensures Inv(c, NextHolder(c, s, step, i).value)
  {
    hide Conserved, Sum, Credits, Assemble;
    var t := NextHolder(c, s, step, i).value;
    assert IndexOk(c, s, i);
    assert Some(i) !in t.slots;
    Frame(c, s, t, i);
    forall r <- t.receivers
      ensures ReceiverOk(t, t.receivers[r])
    {
      var v := t.receivers[r];
      assert ReceiverOk(s, v);
      if v.Found? && v.index != i {
        assert SameAt(s, t, v.index);
        SlotMembership(s, t, v.index);
      }
    }
  }

  /** Every step of every goroutine keeps the invariant. */
  lemma StepKeepsInv(c: Config, s: State, step: Step)
    requires Inv(c, s) && Next(c, s, step).Some?
    ensures Inv(c, Next(c, s, step).value)
  {
    hide Inv, NextHolder, NextEnter, NextStartPiece, NextSweepSlot;
    match step
    case SweepSlot(w) => KeepSweepSlot(c, s, w);
    case StartPiece(i) => KeepStartPiece(c, s, i);
    case Arrive(_, _) => KeepReceivers(c, s, step);
    case LookUp(_) => KeepReceivers(c, s, step);
    case Enter(r) => KeepEnter(c, s, r);
    case CheckHash(i) => KeepCheckHash(c, s, step, i);
    case RetryPiece(i) => KeepRetry(c, s, step, i);
    case ReleaseSlot(i) => KeepRelease(c, s, step, i);
    case Stop => KeepScan(c, s, step);
    case LoadSlot => KeepScan(c, s, step);
    case EndScan => KeepScan(c, s, step);
    case SeekSlot => KeepScan(c, s, step);
    case NoCandidate => KeepScan(c, s, step);
    case _ => KeepFileStep(c, s, step, step.i);
  }
}
