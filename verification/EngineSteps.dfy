/**
  What the download engine does when nobody disturbs it: one turn of the scheduler's loop, and
  the whole way of one block from its arrival to the verified file or to the retry.
 */
module EngineSteps {
  import opened Base
  import opened Messages
  import opened Pending
  import opened Conservation
  import opened Reassembly
  import opened Download
  import DI = DownloadInvariant
  import opened Progress

  lemma ExecFirst(c: Config, s: State, t: State, step: Step, rest: seq<Step>)
    requires Next(c, s, step) == Some(t)
    ensures Exec(c, s, [step] + rest) == Exec(c, t, rest)
  {
    hide Next;
    assert ([step] + rest)[1..] == rest;
  }

  /** Steps from `s` to `t` and on to `u`. */
  lemma Joins(c: Config, s: State, t: State, u: State, a: seq<Step>, b: seq<Step>) returns (steps: seq<Step>)
    requires Exec(c, s, a) == Some(t) && Exec(c, t, b) == Some(u)
    ensures Exec(c, s, steps) == Some(u)
  {
    hide Next;
    ExecJoins(c, s, a, b);
    steps := a + b;
  }

  // ---------- One turn of the scheduler ----------

  /** Slot `j` is the only one from `k` on that holds piece `i`. */
  predicate HeldAt(slots: seq<Option<nat>>, k: nat, i: nat, j: nat) {
    k <= j < |slots| && slots[j] == Some(i) && forall x :: k <= x < |slots| && x != j ==> slots[x] != Some(i)
  }

  predicate HeldNowhere(slots: seq<Option<nat>>, k: nat, i: nat) {
    forall x :: k <= x < |slots| ==> slots[x] != Some(i)
  }

  /** Every piece in a slot from `k` on was swept once, with the choices made for its slot, and no other piece. */
  ghost predicate SweptFrom(s: State, k: nat, ws: nat -> Sweep, after: map<nat, PieceState>) {
    && after.Keys == s.pieces.Keys
    && forall i <- s.pieces ::
         && (forall j :: HeldAt(s.slots, k, i, j) ==> after[i] == SweepPiece(s.pieces[i], ws(j)))
         && (HeldNowhere(s.slots, k, i) ==> after[i] == s.pieces[i])
  }

  /** The slots are known, and no two hold the same piece. */
  predicate SlotsSane(s: State) {
    && |s.slots| == 4
    && (forall j, k :: 0 <= j < k < 4 && s.slots[j].Some? ==> s.slots[j] != s.slots[k])
    && (forall j :: 0 <= j < 4 && s.slots[j].Some? ==> s.slots[j].value in s.pieces)
  }

  /** How many of the four slots from `k` on are free. */
  function FreeFrom(s: State, k: nat): nat
    requires |s.slots| == 4
    decreases 4 - k
  {
    if k >= 4 then 0 else (if s.slots[k] == None then 1 else 0) + FreeFrom(s, k + 1)
  }

  /** The scan goes through all four slots, sweeps every piece it finds and counts the free ones. */
  lemma {:induction false} ScanWalks(c: Config, s: State, k: nat, free: nat, ws: nat -> Sweep)
      returns (steps: seq<Step>, after: map<nat, PieceState>)
    requires SlotsSane(s) && k <= 4 && s.scheduler == Scanning(k, free) && s.held == map[]
    ensures Exec(c, s, steps) == Some(s.(scheduler := Scanning(4, free + FreeFrom(s, k)), pieces := after))
    ensures SweptFrom(s, k, ws, after)
    decreases 4 - k
  {
    hide SweepPiece, SweptFrom, Next, Exec;
    if k == 4 {
      steps, after := [], s.pieces;
      NoneSwept(c, s, ws);
    } else {
      var one, t := ScanOne(c, s, k, free, ws(k));
      var rest;
      rest, after := ScanWalks(c, t, k + 1, t.scheduler.free, ws);
      FreeSame(s, t, k + 1);
      steps := Joins(c, s, t, s.(scheduler := Scanning(4, free + FreeFrom(s, k)), pieces := after), one, rest);
      if s.slots[k] == None {
        SweptEmpty(s, t, k, ws, after);
      } else {
        SweptOne(s, t, k, ws, after);
      }
    }
  }

  lemma NoneSwept(c: Config, s: State, ws: nat -> Sweep)
    requires |s.slots| == 4
    ensures SweptFrom(s, 4, ws, s.pieces) && Exec(c, s, []) == Some(s)
  {
  }

  lemma ScanOne(c: Config, s: State, k: nat, free: nat, w: Sweep) returns (steps: seq<Step>, t: State)
    requires SlotsSane(s) && k < 4 && s.scheduler == Scanning(k, free) && s.held == map[]
    ensures Exec(c, s, steps) == Some(t)
    ensures s.slots[k] == None ==> t == s.(scheduler := Scanning(k + 1, free + 1))
    ensures s.slots[k].Some? ==>
              t == s.(scheduler := Scanning(k + 1, free),
                      pieces := s.pieces[s.slots[k].value := SweepPiece(s.pieces[s.slots[k].value], w)])
  {
    hide SweepPiece;
    t := Next(c, s, LoadSlot).value;
    assert Exec(c, t, []) == Some(t);
    steps := [LoadSlot] + [];
    if s.slots[k].Some? {
      var u := Next(c, t, SweepSlot(w)).value;
      assert Exec(c, u, []) == Some(u);
      ExecFirst(c, t, u, SweepSlot(w), []);
      ExecFirst(c, s, t, LoadSlot, [SweepSlot(w)] + []);
      steps := [LoadSlot] + ([SweepSlot(w)] + []);
      t := u;
    }
  }

  lemma {:induction false} FreeSame(s: State, t: State, k: nat)
    requires s.slots == t.slots && |s.slots| == 4
    ensures FreeFrom(s, k) == FreeFrom(t, k)
    decreases 4 - k
  {
    if k < 4 {
      FreeSame(s, t, k + 1);
    }
  }

  lemma SweptEmpty(s: State, t: State, k: nat, ws: nat -> Sweep, after: map<nat, PieceState>)
    requires |s.slots| == 4 && k < 4 && s.slots[k] == None && t.slots == s.slots && t.pieces == s.pieces
    requires SweptFrom(t, k + 1, ws, after)
    ensures SweptFrom(s, k, ws, after)
  {
    hide SweepPiece;
    forall i, j | i in s.pieces && HeldAt(s.slots, k, i, j)
      ensures after[i] == SweepPiece(s.pieces[i], ws(j))
    {
      assert HeldAt(t.slots, k + 1, i, j);
    }
  }

  lemma SweptOne(s: State, u: State, k: nat, ws: nat -> Sweep, after: map<nat, PieceState>)
    requires SlotsSane(s) && k < 4 && s.slots[k].Some? && u.slots == s.slots
    requires u.pieces == s.pieces[s.slots[k].value := SweepPiece(s.pieces[s.slots[k].value], ws(k))]
    requires SweptFrom(u, k + 1, ws, after)
    ensures SweptFrom(s, k, ws, after)
  {
    hide SweepPiece;
    assert HeldNowhere(u.slots, k + 1, s.slots[k].value);
    forall i, j | i in s.pieces && HeldAt(s.slots, k, i, j)
      ensures after[i] == SweepPiece(s.pieces[i], ws(j))
    {
      if j != k {
        assert HeldAt(u.slots, k + 1, i, j);
        assert i != s.slots[k].value;
      }
    }
    forall i | i in s.pieces && HeldNowhere(s.slots, k, i)
      ensures after[i] == s.pieces[i]
    {
      assert HeldNowhere(u.slots, k + 1, i);
    }
  }

  /** The count of free slots is 4 exactly when all of them are free. */
  lemma {:induction false} AllFreeCount(s: State, k: nat)
    requires |s.slots| == 4 && k <= 4
    ensures FreeFrom(s, k) <= 4 - k
    ensures FreeFrom(s, k) == 4 - k <==> forall j :: k <= j < 4 ==> s.slots[j] == None
    decreases 4 - k
  {
    if k < 4 {
      AllFreeCount(s, k + 1);
    }
  }

  /** `k` is the first free slot from `j` on, or 4 if there is none. */
  predicate FirstFree(s: State, j: nat, k: nat) {
    j <= k <= 4 == |s.slots| && (forall x :: j <= x < k ==> s.slots[x] != None) && (k < 4 ==> s.slots[k] == None)
  }

  /** The search ends at the first free slot, or goes back to the top of the loop. */
  lemma {:induction false} SeekWalks(c: Config, s: State, j: nat, k: nat) returns (steps: seq<Step>)
    requires s.scheduler == Choosing(j) && FirstFree(s, j, k)
    ensures Exec(c, s, steps) == Some(s.(scheduler := if k < 4 then Placing(k) else Scanning(0, 0)))
    decreases k - j
  {
    var t := Next(c, s, SeekSlot).value;
    var rest: seq<Step> := [];
    if j < k {
      rest := SeekWalks(c, t, j + 1, k);
    }
    ExecFirst(c, s, t, SeekSlot, rest);
    steps := [SeekSlot] + rest;
  }

  /**
    What one turn leaves behind, once the scan has made `after` of the pieces: the end of the
    scheduler, a new piece in the first free slot, or nothing else. `pick` is the piece some peer
    has, if there is one, and `k` the first free slot.
   */
  ghost predicate TurnLeaves(c: Config, s: State, pick: Option<nat>, k: nat, after: map<nat, PieceState>, t: State)
    requires FirstFree(s, 0, k) && s.scheduler == Scanning(0, 0) && (pick.Some? ==> c.Has(pick.value))
  {
    if s.unverified == {} && (forall j :: 0 <= j < 4 ==> s.slots[j] == None) then
      t == s.(pieces := after, scheduler := Finished, closed := s.closed + 1)
    else if s.unverified == {} || k == 4 || pick == None then
      t == s.(pieces := after)
    else
      t == s.(pieces := after[pick.value := Start(pick.value, c.sizes[pick.value])],
              slots := s.slots[k := Some(pick.value)],
              unverified := s.unverified - {pick.value})
  }

  /**
    One turn of the scheduler's loop: every piece in a slot is swept once; then the download is
    declared complete if nothing is left to start and all slots are free, or a picked piece is
    started in the first free slot, or the loop goes on with nothing else changed.
   */
  lemma TurnExact(c: Config, s: State, ws: nat -> Sweep, pick: Option<nat>, k: nat)
      returns (steps: seq<Step>, after: map<nat, PieceState>, t: State)
    requires SlotsSane(s) && s.scheduler == Scanning(0, 0) && s.held == map[] && FirstFree(s, 0, k)
    requires pick.Some? ==> pick.value in s.unverified && c.Has(pick.value)
    ensures Exec(c, s, steps) == Some(t)
    ensures SweptFrom(s, 0, ws, after) && TurnLeaves(c, s, pick, k, after, t)
  {
    hide SweepPiece, Start, SweptFrom, Exec, Next;
    steps, after := ScanWalks(c, s, 0, 0, ws);
    var u := s.(scheduler := Scanning(4, FreeFrom(s, 0)), pieces := after);
    AllFreeCount(s, 0);
    if s.unverified == {} {
      t := RoundEnds(c, u);
      steps := Joins(c, s, u, t, steps, [EndScan]);
    } else {
      var v := RoundEnds(c, u);
      steps := Joins(c, s, u, v, steps, [EndScan]);
      var seek := SeekWalks(c, v, 0, k);
      t := v.(scheduler := if k < 4 then Placing(k) else Scanning(0, 0));
      steps := Joins(c, s, v, t, steps, seek);
      if k < 4 {
        var last, w := PickOne(c, t, k, pick);
        steps := Joins(c, s, t, w, steps, [last]);
        t := w;
      }
    }
  }

  /** The end of a scan: finished, at the top of the loop again, or looking for a slot. */
  lemma RoundEnds(c: Config, s: State) returns (t: State)
    requires s.scheduler.Scanning? && s.scheduler.next == 4
    ensures Exec(c, s, [EndScan]) == Some(t)
    ensures s.unverified != {} ==> t == s.(scheduler := Choosing(0))
    ensures s.unverified == {} && s.scheduler.free == 4 ==> t == s.(scheduler := Finished, closed := s.closed + 1)
    ensures s.unverified == {} && s.scheduler.free != 4 ==> t == s.(scheduler := Scanning(0, 0))
  {
    t := Next(c, s, EndScan).value;
    assert Exec(c, t, []) == Some(t) && [EndScan][1..] == [];
  }

  lemma PickOne(c: Config, s: State, k: nat, pick: Option<nat>) returns (last: Step, t: State)
    requires s.scheduler == Placing(k) && k < |s.slots| && s.slots[k] == None
    requires pick.Some? ==> pick.value in s.unverified && c.Has(pick.value)
    ensures Exec(c, s, [last]) == Some(t)
    ensures pick == None ==> t == s.(scheduler := Scanning(0, 0))
    ensures pick.Some? ==>
              t == s.(scheduler := Scanning(0, 0), slots := s.slots[k := pick], unverified := s.unverified - {pick.value},
                      pieces := s.pieces[pick.value := Start(pick.value, c.sizes[pick.value])])
  {
    hide Start;
    last := if pick == None then NoCandidate else StartPiece(pick.value);
    t := Next(c, s, last).value;
    assert Exec(c, t, []) == Some(t) && [last][1..] == [];
  }

  /** The scheduler can be stopped at the top of its loop, and nowhere else. */
  lemma StopExact(c: Config, s: State)
    ensures Next(c, s, Stop)
         == if s.scheduler.Scanning? && s.scheduler.next == 0 && s.scheduler.free == 0 then Some(s.(scheduler := Stopped)) else None
  {
  }

  // ---------- The way of one block ----------

  /** Slot `j` is the first one from `k` on that holds piece `x`; it is 4 if none does. */
  predicate FirstHolding(slots: seq<Option<nat>>, x: int, k: nat, j: nat) {
    && k <= j <= 4 == |slots|
    && (forall l :: k <= l < j ==> slots[l].None? || slots[l].value != x)
    && (j < 4 ==> slots[j].Some? && slots[j].value == x)
  }

  /** A receiver finds the first slot with its piece, or drops the message if there is none. */
  lemma {:induction false} LookWalks(c: Config, s: State, r: nat, m: Piece, k: nat, j: nat) returns (steps: seq<Step>)
    requires r in s.receivers && s.receivers[r] == Looking(m, k) && FirstHolding(s.slots, m.index, k, j)
    ensures Exec(c, s, steps)
         == Some(s.(receivers := if j < 4 then s.receivers[r := Found(m, j, m.index)] else s.receivers - {r}))
    decreases j - k
  {
    var t := Next(c, s, LookUp(r)).value;
    var rest: seq<Step> := [];
    if k < j {
      rest := LookWalks(c, t, r, m, k + 1, j);
      assert t.receivers - {r} == s.receivers - {r};
      assert j < 4 ==> t.receivers[r := Found(m, j, m.index)] == s.receivers[r := Found(m, j, m.index)];
    } else {
      assert Exec(c, t, []) == Some(t);
    }
    ExecFirst(c, s, t, LookUp(r), rest);
    steps := [LookUp(r)] + rest;
  }

  /** How writing the file of a piece with the right digest ends; a failure may leave any content behind. */
  datatype Flush = Written | Failed(left: Option<Bytes>)

  /**
    What a message leaves behind that found its piece `i` in slot `j`. A block that was asked for
    and not yet answered is added. If it was the last one, the data is checked and written, and
    either the piece is done or its bytes are taken off the counter and it starts over.
   */
  ghost predicate BlockLeaves(c: Config, s: State, m: Piece, i: nat, j: nat, flush: Flush, t: State)
    requires i in s.pieces && c.Has(i) && |c.hashes| == |c.sizes| && j < |s.slots|
  {
    var p := s.pieces[i];
    match Receive(p, m)
    case Stored(q) =>
      var right := c.sha1(Assemble(q)) == c.hashes[i];
      var count := s.downloaded + |m.block|;
      if !Complete(q) then
        t == s.(pieces := s.pieces[i := q], downloaded := count)
      else if right && flush.Written? then
        t == s.(pieces := s.pieces[i := q], downloaded := count, disk := s.disk[i := Assemble(q)],
                bits := s.bits + {i}, slots := s.slots[j := None])
      else
        && Retry(q).Some?
        && t == s.(pieces := s.pieces[i := Retry(q).value], downloaded := count - p.size,
                   disk := if right && flush.left.Some? then s.disk[i := flush.left.value] else s.disk)
    case _ => t == s
  }

  /** The holder of a lock past the last byte, up to unlocking. */
  lemma HolderWalks(c: Config, s: State, i: nat, j: nat, flush: Flush) returns (steps: seq<Step>, t: State)
    requires i in s.pieces && c.Has(i) && |c.hashes| == |c.sizes| && j < |s.slots| && s.slots[j] == Some(i)
    requires i in s.held && s.held[i] == Hold(j, Checking(Assemble(s.pieces[i]))) && Retry(s.pieces[i]).Some?
    ensures Exec(c, s, steps) == Some(t)
    ensures var q, data := s.pieces[i], Assemble(s.pieces[i]);
            var right := c.sha1(data) == c.hashes[i];
            var free := s.(held := s.held - {i});
            t == if right && flush.Written?
                 then free.(disk := s.disk[i := data], bits := s.bits + {i}, slots := s.slots[j := None])
                 else free.(pieces := s.pieces[i := Retry(q).value], downloaded := s.downloaded - q.size,
                            disk := if right && flush.left.Some? then s.disk[i := flush.left.value] else s.disk)
  {
    hide Retry, Assemble, Exec;
    var data := Assemble(s.pieces[i]);
    var u := Advance(s, i, if c.sha1(data) == c.hashes[i] then Flushing(data) else Rejected);
    assert u.held - {i} == s.held - {i};
    if c.sha1(data) != c.hashes[i] {
      steps, t := StartsOver(c, u, i);
    } else if flush.Written? {
      steps, t := Finishes(c, u, i, j, data);
    } else {
      steps, t := CannotWrite(c, u, i, data, flush.left);
    }
    ExecFirst(c, s, u, CheckHash(i), steps);
    steps := [CheckHash(i)] + steps;
  }

  lemma CannotWrite(c: Config, s: State, i: nat, data: Bytes, left: Option<Bytes>) returns (steps: seq<Step>, t: State)
    requires i in s.pieces && c.Has(i) && |c.hashes| == |c.sizes| && i in s.held
    requires s.held[i].stage == Flushing(data) && Retry(s.pieces[i]).Some?
    ensures Exec(c, s, steps) == Some(t)
    ensures t == s.(held := s.held - {i}, pieces := s.pieces[i := Retry(s.pieces[i]).value],
                    downloaded := s.downloaded - s.pieces[i].size,
                    disk := if left.Some? then s.disk[i := left.value] else s.disk)
  {
    hide Retry, Exec;
    var v := if left.Some? then s.(disk := s.disk[i := left.value]) else s;
    var w := Advance(v, i, Rejected);
    assert w.held - {i} == s.held - {i};
    steps, t := StartsOver(c, w, i);
    ExecFirst(c, v, w, WriteFails(i), steps);
    steps := [WriteFails(i)] + steps;
    if left.Some? {
      ExecFirst(c, s, v, WritePart(i, left.value), steps);
      steps := [WritePart(i, left.value)] + steps;
    }
  }

  lemma StartsOver(c: Config, s: State, i: nat) returns (steps: seq<Step>, t: State)
    requires i in s.pieces && c.Has(i) && |c.hashes| == |c.sizes| && i in s.held
    requires s.held[i].stage == Rejected && Retry(s.pieces[i]).Some?
    ensures Exec(c, s, steps) == Some(t)
    ensures t == s.(held := s.held - {i}, pieces := s.pieces[i := Retry(s.pieces[i]).value],
                    downloaded := s.downloaded - s.pieces[i].size)
  {
    hide Retry;
    var u := Next(c, s, RollBack(i)).value;
    t := Next(c, u, RetryPiece(i)).value;
    assert Exec(c, t, []) == Some(t);
    ExecFirst(c, u, t, RetryPiece(i), []);
    ExecFirst(c, s, u, RollBack(i), [RetryPiece(i)] + []);
    steps := [RollBack(i)] + ([RetryPiece(i)] + []);
    assert u.held - {i} == s.held - {i};
  }

  lemma Finishes(c: Config, s: State, i: nat, j: nat, data: Bytes) returns (steps: seq<Step>, t: State)
    requires i in s.pieces && c.Has(i) && |c.hashes| == |c.sizes| && i in s.held
    requires s.held[i] == Hold(j, Flushing(data)) && j < |s.slots| && s.slots[j] == Some(i)
    ensures Exec(c, s, steps) == Some(t)
    ensures t == s.(held := s.held - {i}, disk := s.disk[i := data], bits := s.bits + {i}, slots := s.slots[j := None])
  {
    hide Exec;
    var a := Advance(s, i, Flushed).(disk := s.disk[i := data]);
    var b := Advance(a, i, Recorded).(bits := s.bits + {i});
    steps, t := Leaves(c, b, i, j);
    ExecFirst(c, a, b, SetBit(i), steps);
    steps := [SetBit(i)] + steps;
    ExecFirst(c, s, a, WriteAll(i), steps);
    steps := [WriteAll(i)] + steps;
    assert b.held - {i} == s.held - {i};
  }

  lemma Leaves(c: Config, s: State, i: nat, j: nat) returns (steps: seq<Step>, t: State)
    requires i in s.pieces && c.Has(i) && |c.hashes| == |c.sizes| && i in s.held
    requires s.held[i] == Hold(j, Recorded) && j < |s.slots| && s.slots[j] == Some(i)
    ensures Exec(c, s, steps) == Some(t)
    ensures t == s.(held := s.held - {i}, slots := s.slots[j := None])
  {
    var d := Advance(s, i, Released).(slots := s.slots[j := None]);
    assert d.held - {i} == s.held - {i};
    t := d.(held := d.held - {i});
    assert Exec(c, t, []) == Some(t);
    ExecFirst(c, d, t, Unlock(i), []);
    ExecFirst(c, s, d, ReleaseSlot(i), [Unlock(i)] + []);
    steps := [ReleaseSlot(i)] + ([Unlock(i)] + []);
  }

  /** Under the lock of its piece, a message has the effect `BlockLeaves` says. */
  lemma EnterWalks(c: Config, s: State, r: nat, m: Piece, i: nat, j: nat, flush: Flush) returns (steps: seq<Step>, t: State)
    requires r in s.receivers && s.receivers[r] == Found(m, j, i)
    requires i in s.pieces && i !in s.held && c.Has(i) && |c.hashes| == |c.sizes| && j < |s.slots| && s.slots[j] == Some(i)
    requires !Receive(s.pieces[i], m).Overflow?
    requires Receive(s.pieces[i], m).Stored? && Complete(Receive(s.pieces[i], m).piece) ==> Retry(Receive(s.pieces[i], m).piece).Some?
    requires Receive(s.pieces[i], m).Stored? ==> Receive(s.pieces[i], m).piece.size == s.pieces[i].size
    ensures Exec(c, s, steps) == Some(t)
    ensures BlockLeaves(c, s.(receivers := s.receivers - {r}), m, i, j, flush, t)
  {
    hide Receive, Retry, Assemble, Complete;
    var u := Next(c, s, Enter(r)).value;
    t, steps := u, [];
    assert Exec(c, u, []) == Some(u);
    if Receive(s.pieces[i], m).Stored? && Complete(Receive(s.pieces[i], m).piece) {
      steps, t := HolderWalks(c, u, i, j, flush);
      assert u.held - {i} == s.held;
      assert s.pieces[i := u.pieces[i]][i := Retry(u.pieces[i]).value] == s.pieces[i := Retry(u.pieces[i]).value];
    }
    ExecFirst(c, s, u, Enter(r), steps);
    steps := [Enter(r)] + steps;
  }

  /**
    The whole way of a message that nobody disturbs, from its arrival on: dropped without a trace
    if no slot holds its piece, and otherwise what `BlockLeaves` says.
   */
  lemma BlockExact(c: Config, s: State, r: nat, m: Piece, j: nat, flush: Flush) returns (steps: seq<Step>, t: State)
    requires DI.Inv(c, s) && |m.block| < U32 && r !in s.receivers && FirstHolding(s.slots, m.index, 0, j)
    requires m.index !in s.held.Keys
    ensures Exec(c, s, steps) == Some(t)
    ensures j == 4 ==> t == s
    ensures j < 4 ==>
              && m.index in s.pieces && c.Has(m.index) && |c.hashes| == |c.sizes|
              && BlockLeaves(c, s, m, m.index, j, flush, t)
  {
    var u := s.(receivers := s.receivers[r := Looking(m, 0)]);
    var look := LookWalks(c, u, r, m, 0, j);
    ExecFirst(c, s, u, Arrive(r, m), look);
    steps := [Arrive(r, m)] + look;
    assert u.receivers - {r} == s.receivers;
    if j == 4 {
      t := s;
    } else {
      var i := s.slots[j].value;
      FoundPiece(c, s, m, i, j);
      var v := u.(receivers := u.receivers[r := Found(m, j, i)]);
      assert v.receivers - {r} == s.receivers;
      assert v.(receivers := s.receivers) == s;
      var enter;
      enter, t := EnterWalks(c, v, r, m, i, j, flush);
      steps := Joins(c, s, v, t, steps, enter);
    }
  }

  lemma FoundPiece(c: Config, s: State, m: Piece, i: nat, j: nat)
    requires DI.Inv(c, s) && |m.block| < U32 && j < |s.slots| && s.slots[j] == Some(i) && i !in s.held
    ensures i in s.pieces && c.Has(i) && |c.hashes| == |c.sizes| && !Receive(s.pieces[i], m).Overflow?
    ensures Receive(s.pieces[i], m).Stored? ==>
              var q := Receive(s.pieces[i], m).piece;
              q.size == s.pieces[i].size && (Complete(q) ==> Retry(q).Some?)
  {
    hide Receive, Retry, Complete, Conserved, Sum, DI.Credits;
    assert DI.IndexOk(c, s, i);
    ReceiveConserves(s.pieces[i], m);
    if Receive(s.pieces[i], m).Stored? && Complete(Receive(s.pieces[i], m).piece) {
      RetryConserves(Receive(s.pieces[i], m).piece);
    }
  }

  /** A full piece under the lock of its receiver is out of reach of everybody else. */
  lemma LocksExclude(c: Config, s: State, i: nat, r: nat, w: Sweep)
    requires i in s.held && (r in s.receivers && s.receivers[r].Found? ==> s.receivers[r].index == i)
    requires s.scheduler.Loaded? ==> s.scheduler.index == i
    ensures Next(c, s, Enter(r)) == None && Next(c, s, SweepSlot(w)) == None
  {
  }
}
