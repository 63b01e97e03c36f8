/**
  Downloads, uploads and the assembly of the finished torrent together: every interleaving of
  their steps. The assembly may write to piece files too, namely to those whose path is also the
  path of an output; `lost` are their indexes (`LostPieces`).
 */
module System {
  import opened Base
  import opened Messages
  import opened Paths
  import D = Download
  import DI = DownloadInvariant
  import DT = DownloadTheorems
  import U = Upload
  import A = Assembly
  import Pending
  import Reassembly

  /** `over` is what the assembly wrote over piece files. */
  datatype State = State(down: D.State, up: U.State, over: map<nat, Bytes>)

  datatype Step = Down(d: D.Step) | Up(u: U.Step) | Overwrite(i: nat, content: Bytes)

  /** The piece files as a seeder reads them. The engine itself never reads a file. */
  function Files(s: State): map<nat, Bytes> {
    s.down.disk + s.over
  }

  /** The pieces whose file is an output of the assembly. */
  function LostPieces(dir: Path, outs: seq<Path>, n: nat): set<nat> {
    set i | 0 <= i < n && PiecePath(dir, i) in outs
  }

  lemma NoneLost(dir: Path, outs: seq<Path>, n: nat)
    ensures LostPieces(dir, outs, n) == {} <==> A.Apart(outs, PiecePaths(dir, n))
  {
    var pieces := PiecePaths(dir, n);
    if LostPieces(dir, outs, n) != {} {
      var i :| i in LostPieces(dir, outs, n);
      assert pieces[i] in outs && pieces[i] in pieces;
    }
    if !A.Apart(outs, pieces) {
      var p :| p in outs && p in pieces;
      var i :| 0 <= i < n && pieces[i] == p;
      assert i in LostPieces(dir, outs, n);
    }
  }

  /** The length of the torrent's bitfield in bytes. */
  function BitfieldBytes(c: D.Config): nat {
    (|c.sizes| + 7) / 8
  }

  /** Every piece has a bit, and the last byte is needed. */
  lemma BitfieldBytesExact(c: D.Config)
    ensures 8 * BitfieldBytes(c) - 8 < |c.sizes| <= 8 * BitfieldBytes(c)
  {
  }

  /**
    A step of any side; a panic in a request handler ends them all. The assembly runs once
    `completed` is closed, and what it leaves in a lost piece's file is arbitrary.
   */
  function Next(c: D.Config, lost: set<nat>, s: State, step: Step): Option<State> {
    if s.up.panicked then None
    else
      match step
      case Down(d) =>
        (match D.Next(c, s.down, d)
         case None => None
         case Some(t) => Some(s.(down := t)))
      case Up(u) =>
        (match U.Next(s.down.bits, BitfieldBytes(c), Files(s), s.up, u)
         case None => None
         case Some(t) => Some(s.(up := t)))
      case Overwrite(i, content) =>
        if s.down.closed == 1 && i in lost then Some(s.(over := s.over[i := content])) else None
  }

  ghost predicate IsRun(c: D.Config, lost: set<nat>, run: seq<State>, steps: seq<Step>) {
    && |run| == |steps| + 1
    && forall k :: 0 <= k < |steps| ==> Next(c, lost, run[k], steps[k]) == Some(run[k + 1])
  }

  /** A run from a tracker opened on verified files, with nothing uploaded or assembled yet. */
  ghost predicate IsExecution(c: D.Config, lost: set<nat>, run: seq<State>, steps: seq<Step>) {
    && c.Valid() && IsRun(c, lost, run, steps) && run[0].up == U.Init() && run[0].over == map[]
    && exists bits, disk :: DI.StorageOk(c, bits, disk) && run[0].down == D.NewTracker(c, bits, disk)
  }

  /** The pieces whose files may be overwritten by now. */
  function Endangered(lost: set<nat>, s: State): set<nat> {
    if s.down.closed == 0 then {} else lost
  }

  ghost predicate Inv(c: D.Config, lost: set<nat>, s: State) {
    && DI.Inv(c, s.down) && U.Inv(s.down.bits, Files(s), Endangered(lost, s), s.up)
    && s.over.Keys <= Endangered(lost, s)
  }

  lemma StepKeepsInv(c: D.Config, lost: set<nat>, s: State, step: Step)
    requires Inv(c, lost, s) && Next(c, lost, s, step).Some?
    ensures Inv(c, lost, Next(c, lost, s, step).value)
  {
    hide DI.Inv, U.Inv, D.Next, U.Next;
    var t := Next(c, lost, s, step).value;
    match step
    case Down(d) =>
      DI.StepKeepsInv(c, s.down, d);
      DT.StepIsMonotone(c, s.down, d);
      U.InvWeakens(s.down.bits, Files(s), Endangered(lost, s), Endangered(lost, t), s.up);
      U.InvGrows(s.down.bits, Files(s), t.down.bits, Files(t), Endangered(lost, t), s.up);
    case Up(u) =>
      VerifiedIsReadable(c, lost, s);
      U.StepKeepsInv(s.down.bits, BitfieldBytes(c), Files(s), Endangered(lost, s), s.up, u);
    case Overwrite(i, _) =>
      DT.BitsAreOnDisk(c, s.down);
      U.InvGrows(s.down.bits, Files(s), s.down.bits, Files(t), Endangered(lost, s), s.up);
  }

  lemma VerifiedIsReadable(c: D.Config, lost: set<nat>, s: State)
    requires DI.Inv(c, s.down) && s.over.Keys <= Endangered(lost, s)
    ensures U.Readable(s.down.bits, Files(s), Endangered(lost, s))
    ensures (forall i <- s.over :: |s.over[i]| < U32) ==> U.Short(s.down.bits, Files(s))
  {
    DT.BitsAreOnDisk(c, s.down);
  }

  lemma {:induction false} Reachable(c: D.Config, lost: set<nat>, run: seq<State>, steps: seq<Step>, k: nat)
    requires IsExecution(c, lost, run, steps) && k < |run|
    ensures Inv(c, lost, run[k])
  {
    hide Inv, Next;
    if k == 0 {
      var bits, disk :| DI.StorageOk(c, bits, disk) && run[0].down == D.NewTracker(c, bits, disk);
      DI.InitInv(c, bits, disk);
      InitialUploads(c, lost, run[0]);
    } else {
      Reachable(c, lost, run, steps, k - 1);
      assert Next(c, lost, run[k - 1], steps[k - 1]) == Some(run[k]);
      StepKeepsInv(c, lost, run[k - 1], steps[k - 1]);
    }
  }

  lemma InitialUploads(c: D.Config, lost: set<nat>, s: State)
    requires DI.Inv(c, s.down) && s.up == U.Init() && s.over == map[]
    ensures Inv(c, lost, s)
  {
    hide DI.Inv;
  }

  // ---------- What is served ----------

  /**
    Every block a leecher was sent, in any interleaving, is exactly the part its request names
    of a file that has the length and digest of its piece, unless the assembly of a completed
    torrent has an output in place of that file.
   */
  lemma ServedIsVerified(c: D.Config, lost: set<nat>, run: seq<State>, steps: seq<Step>, k: nat, delivery: U.Delivery)
    requires IsExecution(c, lost, run, steps) && k < |run| && delivery in run[k].up.delivered
    ensures delivery.id < |run[k].up.entries|
    ensures var r, disk := run[k].up.entries[delivery.id].request, run[k].down.disk;
            r.index !in lost || run[k].down.closed == 0 ==>
              && 0 <= r.begin && 0 <= r.length && 0 <= r.index && r.index in disk
              && c.Good(r.index, disk[r.index]) && r.begin + r.length <= |disk[r.index]|
              && delivery.block == disk[r.index][r.begin..r.begin + r.length]
  {
    hide DI.IndexOk, DI.SlotsOk, DI.ReceiversOk, DI.SchedulerOk;
    Reachable(c, lost, run, steps, k);
    DT.BitsAreOnDisk(c, run[k].down);
  }

  /**
    A file that was verified at one point is the same file at every later point, unless the
    torrent was completed and the file is an output of its assembly.
   */
  lemma {:induction false} VerifiedForever(c: D.Config, lost: set<nat>, run: seq<State>, steps: seq<Step>, a: nat, b: nat, i: nat)
    requires IsExecution(c, lost, run, steps) && a <= b < |run| && i in run[a].down.bits
    requires i !in lost || run[b].down.closed == 0
    ensures i in run[b].down.bits && i in Files(run[a]) && i in Files(run[b])
    ensures Files(run[b])[i] == Files(run[a])[i] && c.Good(i, Files(run[b])[i])
    decreases b
  {
    hide DI.Inv, U.Inv, D.Next, U.Next;
    Reachable(c, lost, run, steps, b);
    DT.BitsAreOnDisk(c, run[b].down);
    if a < b {
      Reachable(c, lost, run, steps, b - 1);
      assert Next(c, lost, run[b - 1], steps[b - 1]) == Some(run[b]);
      if steps[b - 1].Down? {
        DT.StepIsMonotone(c, run[b - 1].down, steps[b - 1].d);
      }
      VerifiedForever(c, lost, run, steps, a, b - 1, i);
    }
  }

  /**
    A tracker reopened on a bitfield of one moment and the files of a later one starts sound,
    unless an output of the assembly took the place of a piece's file.
   */
  lemma RestartIsSafe(c: D.Config, lost: set<nat>, run: seq<State>, steps: seq<Step>, a: nat, b: nat)
    requires IsExecution(c, lost, run, steps) && a <= b < |run| && (lost == {} || run[b].down.closed == 0)
    ensures DI.StorageOk(c, run[a].down.bits, Files(run[b]))
    ensures DI.Inv(c, D.NewTracker(c, run[a].down.bits, Files(run[b])))
  {
    assert c.Valid();
    hide IsExecution, DI.Inv, D.NewTracker;
    forall i <- run[a].down.bits
      ensures i in Files(run[b]) && c.Good(i, Files(run[b])[i])
    {
      VerifiedForever(c, lost, run, steps, a, b, i);
    }
    DI.InitInv(c, run[a].down.bits, Files(run[b]));
  }

  /**
    The exception is real: once the torrent is completed, creating an output in place of a
    piece's file empties it, although its bit stays set and the piece is still served.
   */
  lemma OverwriteBreaks(c: D.Config, lost: set<nat>, run: seq<State>, steps: seq<Step>, i: nat)
    requires IsExecution(c, lost, run, steps) && i in lost && i < |c.sizes|
    requires run[|steps|].down.closed == 1 && !run[|steps|].up.panicked
    ensures var s := run[|steps|];
            var t := s.(over := s.over[i := []]);
            && IsExecution(c, lost, run + [t], steps + [Overwrite(i, [])])
            && i in t.down.bits && i in Files(t) && !c.Good(i, Files(t)[i])
  {
    hide DI.Inv, U.Inv;
    var s := run[|steps|];
    Reachable(c, lost, run, steps, |steps|);
    ClosedHasAll(c, s.down, i);
    Extend(c, lost, run, steps, Overwrite(i, []), s.(over := s.over[i := []]));
  }

  /** An execution goes on with any step that is enabled. */
  lemma Extend(c: D.Config, lost: set<nat>, run: seq<State>, steps: seq<Step>, step: Step, t: State)
    requires IsExecution(c, lost, run, steps) && Next(c, lost, run[|steps|], step) == Some(t)
    ensures IsExecution(c, lost, run + [t], steps + [step])
  {
    hide Next, DI.StorageOk, D.NewTracker;
    var longer, more := run + [t], steps + [step];
    forall k | 0 <= k < |more|
      ensures Next(c, lost, longer[k], more[k]) == Some(longer[k + 1])
    {
      if k < |steps| {
        assert Next(c, lost, run[k], steps[k]) == Some(run[k + 1]);
      }
    }
  }

  lemma ClosedHasAll(c: D.Config, s: D.State, i: nat)
    requires DI.Inv(c, s) && s.closed == 1 && i < |c.sizes|
    ensures i in s.bits && 0 < c.sizes[i]
  {
    assert DI.IndexOk(c, s, i);
  }

  /** Once `completed` is closed the engine writes no file, so that the assembly has the last word. */
  lemma ClosedWritesNothing(c: D.Config, s: D.State, step: D.Step)
    requires DI.Inv(c, s) && s.closed == 1 && D.Next(c, s, step).Some?
    ensures D.Next(c, s, step).value.disk == s.disk && D.Next(c, s, step).value.closed == 1
  {
    DI.StepKeepsInv(c, s, step);
    DT.StepIsMonotone(c, s, step);
    OnlyFlushingWrites(c, s, step);
    hide D.Next;
    var t := D.Next(c, s, step).value;
    assert t.closed <= 1;
    if t.disk != s.disk {
      assert DI.IndexOk(c, s, step.i);
      ClosedHasAll(c, s, step.i);
    }
  }

  lemma OnlyFlushingWrites(c: D.Config, s: D.State, step: D.Step)
    requires D.Next(c, s, step).Some?
    ensures D.Next(c, s, step).value.disk == s.disk
            || ((step.WritePart? || step.WriteAll?) && step.i in s.held && step.i in s.pieces && step.i < |c.sizes|
                && s.held[step.i].stage.Flushing?)
  {
    hide Pending.Receive, Pending.SweepPiece, Pending.Retry, Pending.Start, Reassembly.Assemble;
  }

  // ---------- When the client panics ----------

  predicate AsksBeyond(c: D.Config, step: Step) {
    step.Up? && U.AsksBeyond(BitfieldBytes(c), step.u)
  }

  /** Some of the first `k` steps takes a request for an index that has no bit. */
  ghost predicate AskedBeyond(c: D.Config, steps: seq<Step>, k: nat) {
    exists j :: 0 <= j < k && j < |steps| && AsksBeyond(c, steps[j])
  }

  /** The assembly writes less than 4 GiB over any piece file. */
  ghost predicate ShortOverwrites(steps: seq<Step>) {
    forall j :: 0 <= j < |steps| && steps[j].Overwrite? ==> |steps[j].content| < U32
  }

  lemma {:induction false} OverIsShort(c: D.Config, lost: set<nat>, run: seq<State>, steps: seq<Step>, k: nat)
    requires IsExecution(c, lost, run, steps) && k < |run| && ShortOverwrites(steps)
    ensures forall i <- run[k].over :: |run[k].over[i]| < U32
  {
    hide D.Next, U.Next;
    if k > 0 {
      OverIsShort(c, lost, run, steps, k - 1);
      assert Next(c, lost, run[k - 1], steps[k - 1]) == Some(run[k]);
    }
  }

  /**
    The engine never panics. A handler panics if and only if it takes a request whose index is
    at least eight times the bitfield's length; nothing else on the upload side ever does, unless
    the assembly leaves 4 GiB or more in a piece's file.
   */
  lemma {:induction false} PanicsIffAskedBeyond(c: D.Config, lost: set<nat>, run: seq<State>, steps: seq<Step>, k: nat)
    requires IsExecution(c, lost, run, steps) && k < |run|
    ensures run[k].down.faults == {}
    ensures ShortOverwrites(steps) || lost == {} ==> (run[k].up.panicked <==> AskedBeyond(c, steps, k))
  {
    hide U.Inv, D.Next, U.Next;
    Reachable(c, lost, run, steps, k);
    assert run[k].down.faults == {};
    hide DI.Inv;
    NoOverwrites(c, lost, run, steps);
    if k > 0 && ShortOverwrites(steps) {
      PanicsIffAskedBeyond(c, lost, run, steps, k - 1);
      Reachable(c, lost, run, steps, k - 1);
      var s := run[k - 1];
      assert Next(c, lost, s, steps[k - 1]) == Some(run[k]);
      if steps[k - 1].Up? {
        OverIsShort(c, lost, run, steps, k - 1);
        VerifiedIsReadable(c, lost, s);
        U.PanicExact(s.down.bits, BitfieldBytes(c), Files(s), Endangered(lost, s), s.up, steps[k - 1].u);
      }
      if AsksBeyond(c, steps[k - 1]) {
        assert AskedBeyond(c, steps, k);
      }
    }
  }

  lemma NoOverwrites(c: D.Config, lost: set<nat>, run: seq<State>, steps: seq<Step>)
    requires IsRun(c, lost, run, steps)
    ensures ShortOverwrites(steps) || lost != {}
  {
    if !ShortOverwrites(steps) {
      var j :| 0 <= j < |steps| && steps[j].Overwrite? && |steps[j].content| >= U32;
      assert Next(c, lost, run[j], steps[j]) == Some(run[j + 1]);
      assert steps[j].i in lost;
    }
  }

  /** The panic is reached: from any start, by the first request for such an index. */
  lemma PanicIsReached(c: D.Config, lost: set<nat>, s: State, r: Request, h: nat, addr: nat)
    requires IsExecution(c, lost, [s], []) && U.Wellformed(r) && 8 * BitfieldBytes(c) <= r.index
    ensures var t := s.(up := s.up.(panicked := true));
            IsExecution(c, lost, [s, t], [Up(U.Accept(h, r, addr))])
  {
    hide DI.StorageOk, D.NewTracker;
    var t := s.(up := s.up.(panicked := true));
    var run, steps := [s, t], [Up(U.Accept(h, r, addr))];
    assert [s][0] == s;
    assert Next(c, lost, run[0], steps[0]) == Some(run[1]);
  }

  // ---------- Upload slots ----------

  /** No request object is passed to `SendPiece` twice, and none sits in two slots. */
  lemma SentAtMostOnce(c: D.Config, lost: set<nat>, run: seq<State>, steps: seq<Step>, k: nat)
    requires IsExecution(c, lost, run, steps) && k < |run|
    ensures var u := run[k].up;
            && (forall i, j :: 0 <= i < j < |u.attempts| ==> u.attempts[i] != u.attempts[j])
            && (forall i, j :: 0 <= i < j < |u.slots| && u.slots[i].Some? ==> u.slots[i] != u.slots[j])
  {
    hide DI.Inv, U.ServedOk;
    Reachable(c, lost, run, steps, k);
  }

  /** A slot is never overwritten: it keeps its request object or becomes empty. */
  lemma NeverOverwritten(c: D.Config, lost: set<nat>, run: seq<State>, steps: seq<Step>, k: nat, j: nat)
    requires IsExecution(c, lost, run, steps) && k < |steps|
    requires j < |run[k].up.slots| && run[k].up.slots[j].Some?
    ensures j < |run[k + 1].up.slots|
    ensures run[k + 1].up.slots[j] == run[k].up.slots[j] || run[k + 1].up.slots[j] == None
  {
    hide D.Next;
    assert Next(c, lost, run[k], steps[k]) == Some(run[k + 1]);
  }

  /** Once the sender has done its update, `Uploaded` is the number of bytes sent without error. */
  lemma UploadedCounts(c: D.Config, lost: set<nat>, run: seq<State>, steps: seq<Step>, k: nat)
    requires IsExecution(c, lost, run, steps) && k < |run|
    ensures run[k].up.uploaded <= U.BytesDelivered(run[k].up.delivered)
    ensures !run[k].up.sender.Sent? && !run[k].up.sender.Counting? ==>
              run[k].up.uploaded == U.BytesDelivered(run[k].up.delivered)
  {
    hide DI.Inv, U.PlacesOk, U.AttemptsOk, U.ServedOk;
    Reachable(c, lost, run, steps, k);
  }
}
