/** A reachable state in which all bytes are counted although nothing is verified yet. */
module DownloadWitness {
  import opened Base
  import opened Messages
  import opened Pending
  import opened Reassembly
  import opened Download
  import opened DownloadInvariant
  import opened DownloadTheorems
  import Progress
  import Completion

  /** A torrent of one piece of one byte, whose expected digest no data has. */
  function OneByte(): Config {
    Config([1], [[]], (data: Bytes) => [1])
  }

  function Block(): Piece {
    Piece(0, 0, [7])
  }

  function EagerSweep(): Sweep {
    Sweep((k: nat) => 0, (k: nat) => true, (k: nat) => 0)
  }

  function Steps(): seq<Step> {
    [LoadSlot, LoadSlot, LoadSlot, LoadSlot, EndScan, SeekSlot, StartPiece(0), LoadSlot,
     SweepSlot(EagerSweep()), Arrive(0, Block()), LookUp(0), Enter(0)]
  }

  /** The scheduler finds four free slots and places piece 0. */
  function Idle(scheduler: Scheduler): State {
    State([None, None, None, None], map[], map[], map[], scheduler, {0}, {}, map[], 0, 0, {})
  }

  /** The piece is in the first slot; `p` is its state. */
  function Busy(p: PieceState, receivers: map<nat, Receiver>, scheduler: Scheduler): State {
    State([Some(0), None, None, None], map[0 := p], map[], receivers, scheduler, {}, {}, map[], 0, 0, {})
  }

  function Requested(): PieceState {
    SweepPiece(Start(0, 1), EagerSweep())
  }

  function Answer(): PieceState {
    Requested().(downloaded := 1, received := [Block()],
                 inFlight := [Timed(Request(0, 0, 1), 0, true)],
                 log := Requested().log.(accepted := 1))
  }

  function Run(): seq<State> {
    [Idle(Scanning(0, 0)), Idle(Scanning(1, 1)), Idle(Scanning(2, 2)), Idle(Scanning(3, 3)),
     Idle(Scanning(4, 4)), Idle(Choosing(0)), Idle(Placing(0)),
     Busy(Start(0, 1), map[], Scanning(0, 0)), Busy(Start(0, 1), map[], Loaded(0, 0, 0)),
     Busy(Requested(), map[], Scanning(1, 0)),
     Busy(Requested(), map[0 := Looking(Block(), 0)], Scanning(1, 0)),
     Busy(Requested(), map[0 := Found(Block(), 0, 0)], Scanning(1, 0)),
     Busy(Answer(), map[], Scanning(1, 0)).(downloaded := 1, held := map[0 := Hold(0, Checking(Assemble(Answer())))])]
  }

  lemma PieceShapes()
    ensures Requested().inFlight == [Timed(Request(0, 0, 1), 0, false)]
    ensures Requested().received == [] && Requested().downloaded == 0 && Requested().size == 1
    ensures Receive(Requested(), Block()) == Stored(Answer())
  {
    assert Tiling(0, 1, 1) == [];
    assert Tiling(0, 0, 1) == [Request(0, 0, 1)];
    var p := Start(0, 1);
    assert TimeOut(p, EagerSweep().checked).pending == [Request(0, 0, 1)];
    assert Find(Requested().inFlight, Request(0, 0, 1)) == 0;
  }

  lemma FirstSteps(k: nat)
    requires k < 8
    ensures Next(OneByte(), Run()[k], Steps()[k]) == Some(Run()[k + 1])
  {
    hide Start, Tiling;
    assert 0 in Idle(Scanning(4, 4)).unverified;
    if k == 6 {
      var s := Run()[6];
      assert s.unverified - {0} == {};
      assert s.slots[0 := Some(0)] == [Some(0), None, None, None];
      assert s.pieces[0 := Start(0, 1)] == map[0 := Start(0, 1)];
    }
  }

  lemma LastSteps(k: nat)
    requires 8 <= k < 12
    ensures Next(OneByte(), Run()[k], Steps()[k]) == Some(Run()[k + 1])
  {
    PieceShapes();
    hide Start, Tiling, SweepPiece, Receive, Assemble;
    var s := Run()[k];
    if k == 8 {
      assert s.pieces[0 := Requested()] == map[0 := Requested()];
    } else if k == 9 {
      assert s.receivers[0 := Looking(Block(), 0)] == map[0 := Looking(Block(), 0)];
    } else if k == 10 {
      assert s.receivers[0 := Found(Block(), 0, 0)] == map[0 := Found(Block(), 0, 0)];
    } else {
      assert s.receivers - {0} == map[];
      assert s.pieces[0 := Answer()] == map[0 := Answer()];
      assert s.held[0 := Hold(0, Checking(Assemble(Answer())))] == map[0 := Hold(0, Checking(Assemble(Answer())))];
      assert Complete(Answer());
    }
  }

  /**
    "Everything downloaded" does not mean "everything verified" while a piece lock is held:
    the counter equals the total, no bit is set, and the digest is going to be rejected.
   */
  lemma TotalBeforeVerified()
    ensures IsExecution(OneByte(), Run(), Steps())
    ensures var s := Run()[12];
            && s.downloaded == OneByte().Total() && s.bits == {} && 0 in s.held
            && s.held[0].stage.Checking? && OneByte().sha1([7]) != OneByte().hashes[0]
  {
    hide Start, Tiling, SweepPiece, Receive, Assemble, Next;
    var c := OneByte();
    forall k | 0 <= k < 12
      ensures Next(c, Run()[k], Steps()[k]) == Some(Run()[k + 1])
    {
      if k < 8 {
        FirstSteps(k);
      } else {
        LastSteps(k);
      }
    }
    assert StorageOk(c, {}, map[]);
    assert c.sizes[..0] == [];
    assert Missing(c, {}) == {0};
    assert Existing(c, {}, 1) == Existing(c, {}, 0);
    assert NewTracker(c, {}, map[]) == Run()[0];
  }

  /** From there the client's update loop cancels the download, and it never completes. */
  lemma CancelledWitness() returns (t: State)
    ensures Left(OneByte(), Run()[12]) == 0
    ensures Progress.Leads(OneByte(), Run()[12], t) && t.scheduler.Stopped? && 0 !in t.bits && t.closed == 0
  {
    TotalBeforeVerified();
    hide Steps, Assemble;
    t := Completion.CancelledTooEarly(OneByte(), Run(), Steps(), 12, 0);
  }
}
