/**
  The download engine as a step machine: one scheduler goroutine, any number of receiver
  goroutines, four slots, a lock per piece, the bitfield, the byte counter and the piece files.

  Every step is one access to shared state, or one critical section of a piece lock as far as
  the piece itself goes; the accesses a critical section makes to state that is read without
  the lock are steps of their own. A piece object is named by its index: `StartedOnce` in
  `DownloadTheorems` shows that no index ever gets a second object.
 */
module Download {
  import opened Base
  import opened Messages
  import opened Pending
  import opened Reassembly

  /** How many pieces are downloaded at a time. */
  const SLOTS: nat := 4

  /** What the metainfo file fixes; the digest function is left uninterpreted. */
  datatype Config = Config(sizes: seq<int>, hashes: seq<Bytes>, sha1: Bytes -> Bytes) {

    ghost predicate Valid() {
      && |hashes| == |sizes| <= U32
      && forall i :: 0 <= i < |sizes| ==> 0 < sizes[i] < U32
    }

    predicate Has(i: int) {
      0 <= i < |sizes|
    }

    function Total(): int {
      Sum(sizes)
    }

    /** `data` has the length and the digest of piece `i`. */
    predicate Good(i: nat, data: Bytes) {
      i < |sizes| && i < |hashes| && |data| == sizes[i] && sha1(data) == hashes[i]
    }
  }

  /** Where the holder of a piece lock stands once the piece's last byte has been counted. */
  datatype Stage =
    | Checking(data: Bytes)
    | Rejected
    | RolledBack
    | Flushing(data: Bytes)
    | Flushed
    | Recorded
    | Released

  /** A held piece lock: the slot its receiver found the piece in, and how far it has come. */
  datatype Hold = Hold(slot: nat, stage: Stage)

  /** A receiver that took a message and is looking for its piece, or waits for the lock. */
  datatype Receiver = Looking(m: Piece, next: nat) | Found(m: Piece, slot: nat, index: nat)

  datatype Scheduler =
    | Scanning(next: nat, free: nat)
    | Loaded(next: nat, free: nat, index: nat)
    | Choosing(next: nat)
    | Placing(slot: nat)
    | Finished
    | Stopped

  /** The panics and the warning the source believes impossible, and a lost compare-and-swap. */
  datatype Fault = MoreThanExpected | MalformedRetry | VerifiedTwice | SlotTaken

  datatype State = State(
    slots: seq<Option<nat>>,
    pieces: map<nat, PieceState>,
    held: map<nat, Hold>,
    receivers: map<nat, Receiver>,
    scheduler: Scheduler,
    unverified: set<nat>,
    bits: set<nat>,
    disk: map<nat, Bytes>,
    downloaded: int,
    closed: nat,
    faults: set<Fault>)

  // ---------- The restart ----------

  /** The pieces the scheduler starts with: those without a bit. */
  function Missing(c: Config, bits: set<nat>): set<nat> {
    set i | 0 <= i < |c.sizes| && i !in bits
  }

  function Existing(c: Config, bits: set<nat>, n: nat): int
    requires n <= |c.sizes|
  {
    if n == 0 then 0 else Existing(c, bits, n - 1) + if n - 1 in bits then c.sizes[n - 1] else 0
  }

  /** A tracker opened on a saved bitfield and the files found on disk. */
  function NewTracker(c: Config, bits: set<nat>, disk: map<nat, Bytes>): State {
    State([None, None, None, None], map[], map[], map[], Scanning(0, 0), Missing(c, bits), bits, disk,
          Existing(c, bits, |c.sizes|), 0, {})
  }

  // ---------- Steps ----------

  datatype Step =
    | Stop
    | LoadSlot
    | SweepSlot(w: Sweep)
    | EndScan
    | SeekSlot
    | NoCandidate
    | StartPiece(i: nat)
    | Arrive(r: nat, m: Piece)
    | LookUp(r: nat)
    | Enter(r: nat)
    | CheckHash(i: nat)
    | WritePart(i: nat, content: Bytes)
    | WriteAll(i: nat)
    | WriteFails(i: nat)
    | RollBack(i: nat)
    | RetryPiece(i: nat)
    | SetBit(i: nat)
    | ReleaseSlot(i: nat)
    | Unlock(i: nat)

  function NextLoadSlot(s: State): Option<State> {
    match s.scheduler
    case Scanning(k, free) =>
      if k < SLOTS && k < |s.slots| then
        match s.slots[k]
        case None => Some(s.(scheduler := Scanning(k + 1, free + 1)))
        case Some(i) => Some(s.(scheduler := Loaded(k, free, i)))
      else None
    case _ => None
  }

  /** Under the piece lock: time out, then send. The pointer may be to a piece that just left its slot. */
  function NextSweepSlot(s: State, w: Sweep): Option<State> {
    match s.scheduler
    case Loaded(k, free, i) =>
      if i in s.pieces && i !in s.held then
        Some(s.(pieces := s.pieces[i := SweepPiece(s.pieces[i], w)], scheduler := Scanning(k + 1, free)))
      else None
    case _ => None
  }

  function NextEndScan(s: State): Option<State> {
    match s.scheduler
    case Scanning(k, free) =>
      if k != SLOTS then None
      else if s.unverified != {} then Some(s.(scheduler := Choosing(0)))
      else if free == SLOTS then Some(s.(scheduler := Finished, closed := s.closed + 1))
      else Some(s.(scheduler := Scanning(0, 0)))
    case _ => None
  }

  function NextSeekSlot(s: State): Option<State> {
    match s.scheduler
    case Choosing(j) =>
      if j < SLOTS && j < |s.slots| then
        Some(s.(scheduler := if s.slots[j] == None then Placing(j) else Choosing(j + 1)))
      else Some(s.(scheduler := Scanning(0, 0)))
    case _ => None
  }

  /** The compare-and-swap of a new piece into the slot that was seen free. */
  function NextStartPiece(c: Config, s: State, i: nat): Option<State> {
    match s.scheduler
    case Placing(slot) =>
      if i in s.unverified && c.Has(i) && slot < |s.slots| then
        var again := s.(scheduler := Scanning(0, 0));
        if s.slots[slot] != None then Some(again.(faults := s.faults + {SlotTaken}))
        else Some(again.(slots := s.slots[slot := Some(i)],
                         pieces := s.pieces[i := Start(i, c.sizes[i])],
                         unverified := s.unverified - {i}))
      else None
    case _ => None
  }

  function NextLookUp(s: State, r: nat): Option<State> {
    if r !in s.receivers then None
    else
      match s.receivers[r]
      case Found(_, _, _) => None
      case Looking(m, j) =>
        if j >= SLOTS || j >= |s.slots| then Some(s.(receivers := s.receivers - {r}))
        else if s.slots[j].Some? && s.slots[j].value == m.index then
          Some(s.(receivers := s.receivers[r := Found(m, j, s.slots[j].value)]))
        else Some(s.(receivers := s.receivers[r := Looking(m, j + 1)]))
  }

  /**
    The critical section up to counting the block. If it was the last one the lock stays held
    and the rest of the section runs as steps of its own.
   */
  function NextEnter(s: State, r: nat): Option<State> {
    if r !in s.receivers || s.receivers[r].Looking? then None
    else
      var Found(m, slot, i) := s.receivers[r];
      if i !in s.pieces || i in s.held then None
      else
        var t := s.(receivers := s.receivers - {r});
        match Receive(s.pieces[i], m)
        case Untracked => Some(t)
        case Duplicate => Some(t)
        case Overflow => Some(t.(faults := s.faults + {MoreThanExpected}))
        case Stored(q) =>
          var u := t.(pieces := s.pieces[i := q], downloaded := s.downloaded + |m.block|);
          if Complete(q) then Some(u.(held := s.held[i := Hold(slot, Checking(Assemble(q)))]))
          else Some(u)
  }

  /** Moves the holder of piece `i` to another stage. */
  function Advance(s: State, i: nat, stage: Stage): State
    requires i in s.held
  {
    s.(held := s.held[i := s.held[i].(stage := stage)])
  }

  /** The steps of a receiver that holds the lock of a piece whose last byte is in. */
  function NextHolder(c: Config, s: State, step: Step, i: nat): Option<State> {
    if i !in s.held || i !in s.pieces || !c.Has(i) || i >= |c.hashes| then None
    else
      match (step, s.held[i].stage)
      case (CheckHash(_), Checking(data)) =>
        Some(Advance(s, i, if c.sha1(data) == c.hashes[i] then Flushing(data) else Rejected))
      case (WritePart(_, content), Flushing(data)) => Some(s.(disk := s.disk[i := content]))
      case (WriteAll(_), Flushing(data)) => Some(Advance(s, i, Flushed).(disk := s.disk[i := data]))
      case (WriteFails(_), Flushing(data)) => Some(Advance(s, i, Rejected))
      case (RollBack(_), Rejected) =>
        Some(Advance(s, i, RolledBack).(downloaded := s.downloaded - s.pieces[i].size))
      case (RetryPiece(_), RolledBack) =>
        var t := s.(held := s.held - {i});
        (match Retry(s.pieces[i])
         case None => Some(t.(faults := s.faults + {MalformedRetry}))
         case Some(q) => Some(t.(pieces := s.pieces[i := q])))
      case (SetBit(_), Flushed) => Some(Advance(s, i, Recorded).(bits := s.bits + {i}))
      case (ReleaseSlot(_), Recorded) =>
        var slot, t := s.held[i].slot, Advance(s, i, Released);
        if slot < |s.slots| && s.slots[slot] == Some(i) then Some(t.(slots := s.slots[slot := None]))
        else Some(t.(faults := s.faults + {VerifiedTwice}))
      case (Unlock(_), Released) => Some(s.(held := s.held - {i}))
      case _ => None
  }

  /** The state after `step`, or `None` where the step is not enabled. */
  function Next(c: Config, s: State, step: Step): Option<State> {
    match step
    case Stop => if s.scheduler == Scanning(0, 0) then Some(s.(scheduler := Stopped)) else None
    case LoadSlot => NextLoadSlot(s)
    case SweepSlot(w) => NextSweepSlot(s, w)
    case EndScan => NextEndScan(s)
    case SeekSlot => NextSeekSlot(s)
    case NoCandidate => if s.scheduler.Placing? then Some(s.(scheduler := Scanning(0, 0))) else None
    case StartPiece(i) => NextStartPiece(c, s, i)
    case Arrive(r, m) =>
      if r in s.receivers || |m.block| >= U32 then None
      else Some(s.(receivers := s.receivers[r := Looking(m, 0)]))
    case LookUp(r) => NextLookUp(s, r)
    case Enter(r) => NextEnter(s, r)
    case _ => NextHolder(c, s, step, step.i)
  }
}
