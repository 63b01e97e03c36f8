/**
  The upload side as a step machine over the download engine's bitfield and files: any number
  of request handlers, their cancels, and the one sender, share 75 slots. Every load and every
  compare-and-swap is a step. A panic ends the client, so no step follows it.
 */
module Upload {
  import opened Base
  import opened Messages
  import opened Storage
  import BitField

  const SLOTS: nat := 75

  /** An accepted request object; its position in `entries` is its identity. */
  datatype Entry = Entry(request: Request, addr: nat)

  datatype Handler =
    | Storing(id: nat, next: nat)
    | Claiming(id: nat, slot: nat)
    | Cancelling(cancel: Request, next: nat)
    | Matched(cancel: Request, next: nat, id: nat)

  datatype Sender =
    | Sweeping(next: nat)
    | Picked(slot: nat, id: nat)
    | Holding(slot: nat, id: nat, block: Bytes)
    | Sent(slot: nat, id: nat, length: nat)
    | Dropping(slot: nat, id: nat)
    | Counting(slot: nat, length: nat)

  /** A block a leecher was sent without error. */
  datatype Delivery = Delivery(id: nat, block: Bytes)

  datatype State = State(
    slots: seq<Option<nat>>,
    entries: seq<Entry>,
    handlers: map<nat, Handler>,
    sender: Sender,
    attempts: seq<nat>,
    delivered: seq<Delivery>,
    uploaded: int,
    panicked: bool)

  function Init(): State {
    State(seq(SLOTS, i => None), [], map[], Sweeping(0), [], [], 0, false)
  }

  datatype Step =
    | Accept(h: nat, request: Request, addr: nat)
    | SeekSlot(h: nat)
    | ClaimSlot(h: nat)
    | Cancel(h: nat, cancel: Request)
    | MatchSlot(h: nat)
    | ClearSlot(h: nat)
    | LoadSlot
    | NoLeecher
    | ReadFile
    | SendPiece(ok: bool)
    | ReleaseSlot
    | CountBytes

  /** What deserializing a request guarantees. */
  predicate Wellformed(r: Request) {
    InU32(r.index) && InU32(r.begin) && InU32(r.length) && Validate(r)
  }

  /** `CompareAndSwap(id, nil)` on one slot. */
  function Clear(slots: seq<Option<nat>>, slot: nat, id: nat): seq<Option<nat>> {
    if slot < |slots| && slots[slot] == Some(id) then slots[slot := None] else slots
  }

  /** The steps of a handler that has taken a request or a cancel and walks the slots with it. */
  function NextBusy(u: State, step: Step, h: nat): Option<State> {
    if h !in u.handlers then None
    else
      match (step, u.handlers[h])
      case (SeekSlot(_), Storing(id, j)) =>
        if j >= |u.slots| then Some(u.(handlers := u.handlers - {h}))
        else if u.slots[j] == None then Some(u.(handlers := u.handlers[h := Claiming(id, j)]))
        else Some(u.(handlers := u.handlers[h := Storing(id, j + 1)]))
      case (ClaimSlot(_), Claiming(id, slot)) =>
        if slot < |u.slots| && u.slots[slot] == None then
          Some(u.(slots := u.slots[slot := Some(id)], handlers := u.handlers - {h}))
        else Some(u.(handlers := u.handlers[h := Storing(id, 0)]))
      case (MatchSlot(_), Cancelling(r, j)) =>
        if j >= |u.slots| then Some(u.(handlers := u.handlers - {h}))
        else if u.slots[j].Some? && u.slots[j].value < |u.entries| && u.entries[u.slots[j].value].request == r then
          Some(u.(handlers := u.handlers[h := Matched(r, j, u.slots[j].value)]))
        else Some(u.(handlers := u.handlers[h := Cancelling(r, j + 1)]))
      case (ClearSlot(_), Matched(r, j, id)) =>
        Some(u.(slots := Clear(u.slots, j, id), handlers := u.handlers[h := Cancelling(r, j + 1)]))
      case _ => None
  }

  /**
    An idle handler takes a request and looks its piece up in a bitfield of `size` bytes. It
    keeps requests for pieces we have, drops the others, and panics over an index with no bit.
   */
  function NextAccept(bits: set<nat>, size: nat, u: State, h: nat, r: Request, addr: nat): Option<State> {
    if h in u.handlers || !Wellformed(r) then None
    else
      match BitField.Lookup(bits, size, r.index)
      case None => Some(u.(panicked := true))
      case Some(found) =>
        if !found then Some(u)
        else Some(u.(entries := u.entries + [Entry(r, addr)], handlers := u.handlers[h := Storing(|u.entries|, 0)]))
  }

  function NextCancel(u: State, h: nat, r: Request): Option<State> {
    if h in u.handlers then None else Some(u.(handlers := u.handlers[h := Cancelling(r, 0)]))
  }

  function NextSender(disk: map<nat, Bytes>, u: State, step: Step): Option<State> {
    match (step, u.sender)
    case (LoadSlot, Sweeping(i)) =>
      if i >= |u.slots| then Some(u.(sender := Sweeping(0)))
      else if u.slots[i] == None then Some(u.(sender := Sweeping(i + 1)))
      else Some(u.(sender := Picked(i, u.slots[i].value)))
    case (NoLeecher, Picked(i, _)) => Some(u.(sender := Sweeping(i + 1)))
    case (ReadFile, Picked(i, id)) =>
      if id >= |u.entries| then None
      else
        var r := u.entries[id].request;
        if r.index < 0 || r.begin < 0 || r.length < 0 then None
        else
          (match ReadRequest(if r.index in disk then Some(disk[r.index]) else None, r)
           case Block(b) => Some(u.(sender := Holding(i, id, b)))
           case Panic => Some(u.(panicked := true))
           case _ => Some(u.(sender := Dropping(i, id))))
    case (SendPiece(ok), Holding(i, id, b)) =>
      var v := u.(attempts := u.attempts + [id]);
      if ok then Some(v.(delivered := u.delivered + [Delivery(id, b)], sender := Sent(i, id, |b|)))
      else Some(v.(sender := Dropping(i, id)))
    case (ReleaseSlot, Sent(i, id, n)) => Some(u.(slots := Clear(u.slots, i, id), sender := Counting(i, n)))
    case (ReleaseSlot, Dropping(i, id)) => Some(u.(slots := Clear(u.slots, i, id), sender := Sweeping(i + 1)))
    case (CountBytes, Counting(i, n)) => Some(u.(uploaded := u.uploaded + n, sender := Sweeping(i + 1)))
    case _ => None
  }

  function Next(bits: set<nat>, size: nat, disk: map<nat, Bytes>, u: State, step: Step): Option<State> {
    if u.panicked then None else
    match step
    case Accept(h, r, addr) => NextAccept(bits, size, u, h, r, addr)
    case Cancel(h, r) => NextCancel(u, h, r)
    case SeekSlot(h) => NextBusy(u, step, h)
    case ClaimSlot(h) => NextBusy(u, step, h)
    case MatchSlot(h) => NextBusy(u, step, h)
    case ClearSlot(h) => NextBusy(u, step, h)
    case _ => NextSender(disk, u, step)
  }

  // ---------- The invariant ----------

  /** The request object the sender has its hands on. */
  predicate Handling(v: Sender, id: nat) {
    (v.Picked? || v.Holding? || v.Sent? || v.Dropping?) && v.id == id
  }

  predicate Carrying(v: Handler) {
    v.Storing? || v.Claiming?
  }

  /** A request object a handler has not stored yet is nowhere else. */
  ghost predicate CarriedOk(u: State, v: Handler) {
    Carrying(v) ==>
      v.id < |u.entries| && Some(v.id) !in u.slots && v.id !in u.attempts && !Handling(u.sender, v.id)
  }

  predicate Different(v: Handler, w: Handler) {
    Carrying(v) && Carrying(w) ==> v.id != w.id
  }

  /** Each accepted request object is in one place at a time, and is handed to `SendPiece` once. */
  ghost predicate PlacesOk(u: State) {
    && |u.slots| == SLOTS
    && (forall j, k :: 0 <= j < k < |u.slots| && u.slots[j].Some? ==> u.slots[j] != u.slots[k])
    && (forall j :: 0 <= j < |u.slots| && u.slots[j].Some? ==> u.slots[j].value < |u.entries|)
    && (forall h <- u.handlers :: CarriedOk(u, u.handlers[h]))
    && (forall g, h :: g in u.handlers && h in u.handlers && g != h ==> Different(u.handlers[g], u.handlers[h]))
  }

  ghost predicate AttemptsOk(u: State) {
    && (forall j, k :: 0 <= j < k < |u.attempts| ==> u.attempts[j] != u.attempts[k])
    && (forall id <- u.attempts :: id < |u.entries|)
    && (forall j :: 0 <= j < |u.slots| && u.slots[j].Some? && u.slots[j].value in u.attempts ==>
          (u.sender.Sent? || u.sender.Dropping?) && u.sender.slot == j && u.sender.id == u.slots[j].value)
    && (u.sender.Picked? || u.sender.Holding? ==> u.sender.id < |u.entries| && u.sender.id !in u.attempts)
    && (u.sender.Dropping? || u.sender.Sent? ==> u.sender.id < |u.entries|)
    && (forall j :: 0 <= j < |u.slots| && u.slots[j].Some? && Handling(u.sender, u.slots[j].value) ==>
          j == u.sender.slot)
  }

  /** The block is exactly the part of a verified file the request names. */
  ghost predicate BlockOk(bits: set<nat>, disk: map<nat, Bytes>, r: Request, block: Bytes) {
    && 0 <= r.index && r.index in bits && r.index in disk
    && 0 <= r.begin && 0 <= r.length && r.begin + r.length <= |disk[r.index]|
    && block == disk[r.index][r.begin..r.begin + r.length]
  }

  /**
    What is said of served blocks, except those of the pieces in `lost`, whose files somebody
    else may write to.
   */
  ghost predicate ServedOk(bits: set<nat>, disk: map<nat, Bytes>, lost: set<nat>, u: State) {
    && (forall e <- u.entries :: Wellformed(e.request) && e.request.index in bits)
    && (forall d <- u.delivered ::
          && d.id in u.attempts && d.id < |u.entries|
          && (u.entries[d.id].request.index !in lost ==> BlockOk(bits, disk, u.entries[d.id].request, d.block)))
    && (u.sender.Holding? ==>
          && u.sender.id < |u.entries|
          && (u.entries[u.sender.id].request.index !in lost ==>
                BlockOk(bits, disk, u.entries[u.sender.id].request, u.sender.block)))
  }

  function BytesDelivered(ds: seq<Delivery>): int {
    if |ds| == 0 then 0 else BytesDelivered(ds[..|ds| - 1]) + |ds[|ds| - 1].block|
  }

  /** The bytes the sender has delivered but not counted yet. */
  function Uncounted(v: Sender): int {
    if v.Sent? || v.Counting? then v.length else 0
  }

  ghost predicate Inv(bits: set<nat>, disk: map<nat, Bytes>, lost: set<nat>, u: State) {
    && PlacesOk(u) && AttemptsOk(u) && ServedOk(bits, disk, lost, u)
    && u.uploaded + Uncounted(u.sender) == BytesDelivered(u.delivered)
  }

  /** What the upload side relies on: a set bit means a file shorter than 4 GiB. */
  ghost predicate Readable(bits: set<nat>, disk: map<nat, Bytes>, lost: set<nat>) {
    forall i <- bits :: i !in lost ==> i in disk && |disk[i]| < U32
  }

  /** No file is so long that a block in it can end past 32 bits. */
  ghost predicate Short(bits: set<nat>, disk: map<nat, Bytes>) {
    forall i <- bits :: i in disk ==> |disk[i]| < U32
  }

  // ---------- Every step keeps it ----------

  lemma ClearMembers(slots: seq<Option<nat>>, slot: nat, id: nat)
    ensures var t := Clear(slots, slot, id);
            && |t| == |slots|
            && (forall j :: 0 <= j < |slots| ==> t[j] == slots[j] || (t[j] == None && j == slot && slots[j] == Some(id)))
            && (slot < |slots| ==> t[slot] != Some(id))
            && forall i :: Some(i) in t ==> Some(i) in slots
  {
  }

  lemma ClaimMembers(slots: seq<Option<nat>>, slot: nat, id: nat)
    requires slot < |slots| && slots[slot] == None
    ensures forall i :: Some(i) in slots[slot := Some(id)] <==> Some(i) in slots || i == id
  {
    var t := slots[slot := Some(id)];
    assert t[slot] == Some(id);
    forall i | Some(i) in slots
      ensures Some(i) in t
    {
      var k :| 0 <= k < |slots| && slots[k] == Some(i);
      assert t[k] == Some(i);
    }
  }

  /** Replacing what handler `h` does, by something that carries nothing new. */
  lemma HandlersMove(u: State, t: State, h: nat)
    requires PlacesOk(u) && h in u.handlers
    requires t.entries == u.entries && t.attempts == u.attempts && t.sender == u.sender && t.slots == u.slots
    requires forall k :: k != h ==> (k in t.handlers <==> k in u.handlers)
    requires forall k :: k != h && k in u.handlers ==> t.handlers[k] == u.handlers[k]
    requires h in t.handlers && Carrying(t.handlers[h]) ==> Carrying(u.handlers[h]) && u.handlers[h].id == t.handlers[h].id
    ensures PlacesOk(t)
  {
    assert CarriedOk(u, u.handlers[h]);
    forall k <- t.handlers
      ensures CarriedOk(t, t.handlers[k])
    {
      assert CarriedOk(u, u.handlers[k]);
    }
    forall g, k | g in t.handlers && k in t.handlers && g != k
      ensures Different(t.handlers[g], t.handlers[k])
    {
      assert Different(u.handlers[g], u.handlers[k]);
    }
  }

  lemma KeepWalk(bits: set<nat>, disk: map<nat, Bytes>, lost: set<nat>, u: State, step: Step, h: nat)
    requires Inv(bits, disk, lost, u) && NextBusy(u, step, h).Some? && (step.SeekSlot? || step.MatchSlot?)
    ensures Inv(bits, disk, lost, NextBusy(u, step, h).value)
  {
    hide BytesDelivered, Wellformed, BlockOk, CarriedOk, Different, PlacesOk;
    HandlersMove(u, NextBusy(u, step, h).value, h);
  }

  lemma KeepClear(bits: set<nat>, disk: map<nat, Bytes>, lost: set<nat>, u: State, h: nat)
    requires Inv(bits, disk, lost, u) && NextBusy(u, ClearSlot(h), h).Some?
    ensures Inv(bits, disk, lost, NextBusy(u, ClearSlot(h), h).value)
  {
    hide BytesDelivered, Wellformed, BlockOk, CarriedOk, Different, PlacesOk, Clear;
    var Matched(r, j, id) := u.handlers[h];
    var v := u.(handlers := u.handlers[h := Cancelling(r, j + 1)]);
    HandlersMove(u, v, h);
    FewerSlots(bits, disk, lost, v, j, id);
  }

  /** Emptying a slot keeps everything that is said about where request objects are. */
  lemma FewerSlots(bits: set<nat>, disk: map<nat, Bytes>, lost: set<nat>, u: State, slot: nat, id: nat)
    requires Inv(bits, disk, lost, u)
    ensures Inv(bits, disk, lost, u.(slots := Clear(u.slots, slot, id)))
  {
    hide BytesDelivered, Wellformed, BlockOk, Different, Clear;
    var t := u.(slots := Clear(u.slots, slot, id));
    ClearMembers(u.slots, slot, id);
    forall k <- t.handlers
      ensures CarriedOk(t, t.handlers[k])
    {
      assert CarriedOk(u, u.handlers[k]);
    }
  }

  lemma KeepIdle(bits: set<nat>, size: nat, disk: map<nat, Bytes>, lost: set<nat>, u: State, step: Step)
    requires Inv(bits, disk, lost, u) && Next(bits, size, disk, u, step).Some? && (step.Accept? || step.Cancel?)
    ensures Inv(bits, disk, lost, Next(bits, size, disk, u, step).value)
  {
    hide BytesDelivered, Wellformed, BlockOk;
    var t, h := Next(bits, size, disk, u, step).value, step.h;
    assert Some(|u.entries|) !in u.slots;
    forall k <- t.handlers
      ensures CarriedOk(t, t.handlers[k])
    {
      if k != h {
        assert CarriedOk(u, u.handlers[k]);
      }
    }
    forall g, k | g in t.handlers && k in t.handlers && g != k
      ensures Different(t.handlers[g], t.handlers[k])
    {
      if g != h && k != h {
        assert Different(u.handlers[g], u.handlers[k]);
      } else if g != h {
        assert CarriedOk(u, u.handlers[g]);
      } else {
        assert CarriedOk(u, u.handlers[k]);
      }
    }
  }

  lemma KeepClaim(bits: set<nat>, disk: map<nat, Bytes>, lost: set<nat>, u: State, h: nat)
    requires Inv(bits, disk, lost, u) && NextBusy(u, ClaimSlot(h), h).Some?
    ensures Inv(bits, disk, lost, NextBusy(u, ClaimSlot(h), h).value)
  {
    hide BytesDelivered, Wellformed, BlockOk, Different;
    var Claiming(id, slot) := u.handlers[h];
    var t := NextBusy(u, ClaimSlot(h), h).value;
    assert CarriedOk(u, u.handlers[h]);
    if slot < |u.slots| && u.slots[slot] == None {
      ClaimMembers(u.slots, slot, id);
      forall k <- t.handlers
        ensures CarriedOk(t, t.handlers[k])
      {
        assert CarriedOk(u, u.handlers[k]);
        assert Different(u.handlers[h], u.handlers[k]);
        DifferentIds(u.handlers[h], u.handlers[k]);
      }
    } else {
      HandlersMove(u, t, h);
    }
  }

  lemma DifferentIds(v: Handler, w: Handler)
    requires Different(v, w)
    ensures Carrying(v) && Carrying(w) ==> v.id != w.id
  {
  }

  /** The sender moves on to a slot or away from it, handling no request object it did not before. */
  lemma KeepScan(bits: set<nat>, disk: map<nat, Bytes>, lost: set<nat>, u: State, step: Step)
    requires Inv(bits, disk, lost, u) && NextSender(disk, u, step).Some?
    requires step.LoadSlot? || step.NoLeecher? || step.CountBytes?
    ensures Inv(bits, disk, lost, NextSender(disk, u, step).value)
  {
    hide BytesDelivered, Wellformed, BlockOk, Different, NextSender;
    var t := NextSender(disk, u, step).value;
    SenderScans(disk, u, step);
    forall k <- t.handlers
      ensures CarriedOk(t, t.handlers[k])
    {
      assert CarriedOk(u, u.handlers[k]);
    }
  }

  lemma SenderScans(disk: map<nat, Bytes>, u: State, step: Step)
    requires NextSender(disk, u, step).Some?
    requires step.LoadSlot? || step.NoLeecher? || step.CountBytes?
    ensures var t := NextSender(disk, u, step).value;
            && t == u.(sender := t.sender, uploaded := t.uploaded) && !u.sender.Sent? && !u.sender.Dropping?
            && t.uploaded + Uncounted(t.sender) == u.uploaded + Uncounted(u.sender)
            && (t.sender.Sweeping?
                || (t.sender.Picked? && t.sender.slot < |u.slots| && u.slots[t.sender.slot] == Some(t.sender.id)
                    && u.sender.Sweeping?))
  {
  }

  lemma ReadsNothing(r: Request)
    requires 0 <= r.begin && 0 <= r.length
    ensures ReadRequest(None, r) == NoFile
  {
  }

  lemma KeepRead(bits: set<nat>, disk: map<nat, Bytes>, lost: set<nat>, u: State)
    requires Inv(bits, disk, lost, u) && Readable(bits, disk, lost) && NextSender(disk, u, ReadFile).Some?
    ensures Inv(bits, disk, lost, NextSender(disk, u, ReadFile).value)
    ensures Short(bits, disk) ==> NextSender(disk, u, ReadFile).value.panicked == u.panicked
  {
    hide BytesDelivered, ReadRequest, Different;
    var e, t := u.entries[u.sender.id], NextSender(disk, u, ReadFile).value;
    assert e in u.entries;
    if e.request.index in disk {
      ReadRequestExact(disk[e.request.index], e.request);
    } else {
      assert ReadRequest(None, e.request) == NoFile by {
        ReadsNothing(e.request);
      }
    }
    forall k <- t.handlers
      ensures CarriedOk(t, t.handlers[k])
    {
      assert CarriedOk(u, u.handlers[k]);
    }
  }

  lemma KeepSend(bits: set<nat>, disk: map<nat, Bytes>, lost: set<nat>, u: State, ok: bool)
    requires Inv(bits, disk, lost, u) && NextSender(disk, u, SendPiece(ok)).Some?
    ensures Inv(bits, disk, lost, NextSender(disk, u, SendPiece(ok)).value)
  {
    hide BlockOk, Wellformed, Different, NextSender;
    SenderSends(disk, u, ok);
    var d, t := Delivery(u.sender.id, u.sender.block), NextSender(disk, u, SendPiece(ok)).value;
    assert (u.delivered + [d])[..|u.delivered|] == u.delivered;
    forall k <- t.handlers
      ensures CarriedOk(t, t.handlers[k])
    {
      assert CarriedOk(u, u.handlers[k]);
    }
  }

  lemma SenderSends(disk: map<nat, Bytes>, u: State, ok: bool)
    requires NextSender(disk, u, SendPiece(ok)).Some?
    ensures u.sender.Holding?
    ensures var Holding(i, id, b) := u.sender;
            NextSender(disk, u, SendPiece(ok)).value
            == u.(attempts := u.attempts + [id],
                  delivered := if ok then u.delivered + [Delivery(id, b)] else u.delivered,
                  sender := if ok then Sent(i, id, |b|) else Dropping(i, id))
  {
  }

  lemma KeepRelease(bits: set<nat>, disk: map<nat, Bytes>, lost: set<nat>, u: State)
    requires Inv(bits, disk, lost, u) && NextSender(disk, u, ReleaseSlot).Some?
    ensures Inv(bits, disk, lost, NextSender(disk, u, ReleaseSlot).value)
  {
    hide BytesDelivered, Wellformed, BlockOk, Different, Clear;
    var v, t := u.(slots := Clear(u.slots, u.sender.slot, u.sender.id)), NextSender(disk, u, ReleaseSlot).value;
    FewerSlots(bits, disk, lost, u, u.sender.slot, u.sender.id);
    ClearMembers(u.slots, u.sender.slot, u.sender.id);
    forall k <- t.handlers
      ensures CarriedOk(t, t.handlers[k])
    {
      assert CarriedOk(v, v.handlers[k]);
    }
  }

  lemma StepKeepsInv(bits: set<nat>, size: nat, disk: map<nat, Bytes>, lost: set<nat>, u: State, step: Step)
    requires Inv(bits, disk, lost, u) && Readable(bits, disk, lost) && Next(bits, size, disk, u, step).Some?
    ensures Inv(bits, disk, lost, Next(bits, size, disk, u, step).value)
  {
    hide Inv, NextBusy, NextSender, NextAccept, NextCancel;
    match step
    case Accept(_, _, _) => KeepIdle(bits, size, disk, lost, u, step);
    case Cancel(_, _) => KeepIdle(bits, size, disk, lost, u, step);
    case SeekSlot(h) => KeepWalk(bits, disk, lost, u, step, h);
    case MatchSlot(h) => KeepWalk(bits, disk, lost, u, step, h);
    case ClaimSlot(h) => KeepClaim(bits, disk, lost, u, h);
    case ClearSlot(h) => KeepClear(bits, disk, lost, u, h);
    case ReadFile => KeepRead(bits, disk, lost, u);
    case SendPiece(ok) => KeepSend(bits, disk, lost, u, ok);
    case ReleaseSlot => KeepRelease(bits, disk, lost, u);
    case _ => KeepScan(bits, disk, lost, u, step);
  }

  /** The request is for an index that the bitfield's bytes have no bit for. */
  predicate AsksBeyond(size: nat, step: Step) {
    step.Accept? && 8 * size <= step.request.index
  }

  /** The only step that panics is taking such a request; reading and sending never do. */
  lemma PanicExact(bits: set<nat>, size: nat, disk: map<nat, Bytes>, lost: set<nat>, u: State, step: Step)
    requires Inv(bits, disk, lost, u) && Readable(bits, disk, lost) && Short(bits, disk)
    requires Next(bits, size, disk, u, step).Some?
    ensures !u.panicked
    ensures Next(bits, size, disk, u, step).value.panicked <==> AsksBeyond(size, step)
  {
    hide Inv, NextBusy, NextSender;
    match step
    case SeekSlot(h) => BusyIsCalm(u, step, h);
    case MatchSlot(h) => BusyIsCalm(u, step, h);
    case ClaimSlot(h) => BusyIsCalm(u, step, h);
    case ClearSlot(h) => BusyIsCalm(u, step, h);
    case ReadFile => KeepRead(bits, disk, lost, u);
    case LoadSlot => SenderIsCalm(disk, u, step);
    case NoLeecher => SenderIsCalm(disk, u, step);
    case SendPiece(_) => SenderIsCalm(disk, u, step);
    case ReleaseSlot => SenderIsCalm(disk, u, step);
    case CountBytes => SenderIsCalm(disk, u, step);
    case Accept(_, _, _) =>
    case Cancel(_, _) =>
  }

  lemma BusyIsCalm(u: State, step: Step, h: nat)
    requires NextBusy(u, step, h).Some?
    ensures NextBusy(u, step, h).value.panicked == u.panicked
  {
  }

  lemma SenderIsCalm(disk: map<nat, Bytes>, u: State, step: Step)
    requires NextSender(disk, u, step).Some? && !step.ReadFile?
    ensures NextSender(disk, u, step).value.panicked == u.panicked
  {
  }

  /** Less is said when more pieces may be lost. */
  lemma InvWeakens(bits: set<nat>, disk: map<nat, Bytes>, lost: set<nat>, lost': set<nat>, u: State)
    requires Inv(bits, disk, lost, u) && lost <= lost'
    ensures Inv(bits, disk, lost', u)
  {
    hide BytesDelivered;
  }

  /** More bits, and the same files under the old ones, change nothing for the upload side. */
  lemma InvGrows(bits: set<nat>, disk: map<nat, Bytes>, bits': set<nat>, disk': map<nat, Bytes>, lost: set<nat>, u: State)
    requires Inv(bits, disk, lost, u) && bits <= bits'
    requires forall i <- bits :: i !in lost ==> i in disk && i in disk' && disk'[i] == disk[i]
    ensures Inv(bits', disk', lost, u)
  {
    hide BytesDelivered;
  }
}
