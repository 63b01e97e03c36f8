/** Which request a handler stores, a cancel removes and the sender serves. */
module UploadSteps {
  import opened Base
  import opened Messages
  import opened Storage
  import opened Upload
  import D = Download
  import BitField
  import S = System

  // ---------- One step ----------

  /** The handler a step belongs to, if any. */
  function Owner(step: Step): Option<nat> {
    match step
    case Accept(h, _, _) => Some(h)
    case SeekSlot(h) => Some(h)
    case ClaimSlot(h) => Some(h)
    case Cancel(h, _) => Some(h)
    case MatchSlot(h) => Some(h)
    case ClearSlot(h) => Some(h)
    case _ => None
  }

  lemma OthersStay(bits: set<nat>, size: nat, disk: map<nat, Bytes>, u: State, step: Step, h: nat)
    requires Next(bits, size, disk, u, step).Some?
    ensures var t := Next(bits, size, disk, u, step).value;
            && u.entries <= t.entries
            && (Owner(step) != Some(h) ==>
                  (h in t.handlers <==> h in u.handlers) && (h in t.handlers ==> t.handlers[h] == u.handlers[h]))
  {
    hide ReadRequest, Clear, Wellformed;
  }

  predicate Cancels(v: Handler, r: Request) {
    (v.Cancelling? || v.Matched?) && v.cancel == r
  }

  /** A handler is on a cancel because it took it, and matches a slot because its request is equal. */
  lemma CancelSteps(bits: set<nat>, size: nat, disk: map<nat, Bytes>, u: State, step: Step, h: nat)
    requires Next(bits, size, disk, u, step).Some?
    ensures var t := Next(bits, size, disk, u, step).value;
            h in t.handlers ==>
              && (t.handlers[h].Cancelling? || t.handlers[h].Matched? ==>
                    step == Cancel(h, t.handlers[h].cancel) || (h in u.handlers && Cancels(u.handlers[h], t.handlers[h].cancel)))
              && (t.handlers[h].Matched? ==>
                    || (h in u.handlers && u.handlers[h] == t.handlers[h])
                    || (t.handlers[h].id < |u.entries| && u.entries[t.handlers[h].id].request == t.handlers[h].cancel))
  {
    OthersStay(bits, size, disk, u, step, h);
    hide ReadRequest, Clear, Wellformed, NextSender;
  }

  /** A slot loses its request by the sender's release of it, or by a cancel that matched it there. */
  lemma FreeSteps(bits: set<nat>, size: nat, disk: map<nat, Bytes>, u: State, step: Step, j: nat)
    requires Next(bits, size, disk, u, step).Some?
    requires j < |u.slots| && u.slots[j].Some?
    ensures var t := Next(bits, size, disk, u, step).value;
            && |t.slots| == |u.slots|
            && (t.slots[j] != u.slots[j] ==>
                  && t.slots[j] == None
                  && ((step == ReleaseSlot && (u.sender.Sent? || u.sender.Dropping?)
                       && u.sender.slot == j && u.sender.id == u.slots[j].value)
                      || (step.ClearSlot? && step.h in u.handlers && u.handlers[step.h].Matched?
                          && u.handlers[step.h].next == j && u.handlers[step.h].id == u.slots[j].value)))
  {
    hide ReadRequest, Wellformed;
  }

  // ---------- Over runs ----------

  /** The cancel a handler is on is one it took. */
  lemma {:induction false} CancelWasTaken(c: D.Config, lost: set<nat>, run: seq<S.State>, steps: seq<S.Step>, k: nat, h: nat)
    requires S.IsExecution(c, lost, run, steps) && k < |run| && h in run[k].up.handlers
    requires run[k].up.handlers[h].Cancelling? || run[k].up.handlers[h].Matched?
    ensures exists a :: 0 <= a < k && steps[a] == S.Up(Cancel(h, run[k].up.handlers[h].cancel))
  {
    hide Next, D.Next;
    if k > 0 {
      var s := run[k - 1];
      assert S.Next(c, lost, s, steps[k - 1]) == Some(run[k]);
      if steps[k - 1].Up? {
        CancelSteps(s.down.bits, S.BitfieldBytes(c), S.Files(s), s.up, steps[k - 1].u, h);
      }
      if steps[k - 1] != S.Up(Cancel(h, run[k].up.handlers[h].cancel)) {
        CancelWasTaken(c, lost, run, steps, k - 1, h);
        var a :| 0 <= a < k - 1 && steps[a] == S.Up(Cancel(h, s.up.handlers[h].cancel));
      }
    }
  }

  /** A matched request is the one the cancel names. */
  lemma {:induction false} MatchedIsNamed(c: D.Config, lost: set<nat>, run: seq<S.State>, steps: seq<S.Step>, k: nat, h: nat)
    requires S.IsExecution(c, lost, run, steps) && k < |run| && h in run[k].up.handlers && run[k].up.handlers[h].Matched?
    ensures var v, entries := run[k].up.handlers[h], run[k].up.entries;
            v.id < |entries| && entries[v.id].request == v.cancel
  {
    hide Next, D.Next;
    if k > 0 {
      var s := run[k - 1];
      assert S.Next(c, lost, s, steps[k - 1]) == Some(run[k]);
      if steps[k - 1].Up? {
        CancelSteps(s.down.bits, S.BitfieldBytes(c), S.Files(s), s.up, steps[k - 1].u, h);
        OthersStay(s.down.bits, S.BitfieldBytes(c), S.Files(s), s.up, steps[k - 1].u, h);
      }
      if h in s.up.handlers && s.up.handlers[h] == run[k].up.handlers[h] {
        MatchedIsNamed(c, lost, run, steps, k - 1, h);
      }
    }
  }

  /**
    An occupied slot becomes free only by the sender's own release, after it tried to serve the
    request or could not, or by a cancel that some handler took and that names exactly this request.
   */
  lemma FreedOnlyByCancelOrSender(c: D.Config, lost: set<nat>, run: seq<S.State>, steps: seq<S.Step>, k: nat, j: nat)
    requires S.IsExecution(c, lost, run, steps) && k < |steps|
    requires j < |run[k].up.slots| && run[k].up.slots[j].Some? && j < |run[k + 1].up.slots|
    requires run[k + 1].up.slots[j] != run[k].up.slots[j]
    ensures run[k + 1].up.slots[j] == None
    ensures var u, id := run[k].up, run[k].up.slots[j].value;
            || (steps[k] == S.Up(ReleaseSlot) && (u.sender.Sent? || u.sender.Dropping?) && u.sender.slot == j && u.sender.id == id)
            || (id < |u.entries| && exists h, a :: 0 <= a < k && steps[k] == S.Up(ClearSlot(h))
                                                  && steps[a] == S.Up(Cancel(h, u.entries[id].request)))
  {
    hide Next, D.Next;
    var s := run[k];
    assert S.Next(c, lost, s, steps[k]) == Some(run[k + 1]);
    var step := steps[k].u;
    FreeSteps(s.down.bits, S.BitfieldBytes(c), S.Files(s), s.up, step, j);
    if step.ClearSlot? {
      MatchedIsNamed(c, lost, run, steps, k, step.h);
      CancelWasTaken(c, lost, run, steps, k, step.h);
    }
  }

  /** Every request object holds what some handler took, for a piece the seeder had then. */
  lemma {:induction false} EntriesWereTaken(c: D.Config, lost: set<nat>, run: seq<S.State>, steps: seq<S.Step>, k: nat, id: nat)
    requires S.IsExecution(c, lost, run, steps) && k < |run| && id < |run[k].up.entries|
    ensures exists a, h :: 0 <= a < k && run[k].up.entries[id].request.index in run[a].down.bits
              && steps[a] == S.Up(Accept(h, run[k].up.entries[id].request, run[k].up.entries[id].addr))
  {
    hide Next, D.Next;
    if k > 0 {
      var s, e := run[k - 1], run[k].up.entries[id];
      assert S.Next(c, lost, s, steps[k - 1]) == Some(run[k]);
      if id < |s.up.entries| {
        if steps[k - 1].Up? {
          OthersStay(s.down.bits, S.BitfieldBytes(c), S.Files(s), s.up, steps[k - 1].u, 0);
        }
        assert s.up.entries[id] == e;
        EntriesWereTaken(c, lost, run, steps, k - 1, id);
        var a, h :| 0 <= a < k - 1 && e.request.index in run[a].down.bits && steps[a] == S.Up(Accept(h, e.request, e.addr));
        assert 0 <= a < k;
      } else {
        NewEntry(s.down.bits, S.BitfieldBytes(c), S.Files(s), s.up, steps[k - 1].u, id);
        assert steps[k - 1] == S.Up(Accept(steps[k - 1].u.h, e.request, e.addr));
      }
    }
  }

  lemma NewEntry(bits: set<nat>, size: nat, disk: map<nat, Bytes>, u: State, step: Step, id: nat)
    requires Next(bits, size, disk, u, step).Some?
    requires |u.entries| <= id < |Next(bits, size, disk, u, step).value.entries|
    ensures var e := Next(bits, size, disk, u, step).value.entries[id];
            step.Accept? && step == Accept(step.h, e.request, e.addr) && e.request.index in bits
  {
    hide ReadRequest, Clear;
  }

  // ---------- A handler left to itself ----------

  function Exec(bits: set<nat>, size: nat, disk: map<nat, Bytes>, u: State, steps: seq<Step>): Option<State>
    decreases |steps|
  {
    if |steps| == 0 then Some(u)
    else
      match Next(bits, size, disk, u, steps[0])
      case None => None
      case Some(t) => Exec(bits, size, disk, t, steps[1..])
  }

  /** Slot `j` holds a request equal to `r`. */
  predicate HoldsEqual(u: State, j: nat, r: Request)
    requires j < |u.slots|
  {
    u.slots[j].Some? && u.slots[j].value < |u.entries| && u.entries[u.slots[j].value].request == r
  }

  /** The slots after a cancel of `r` has walked over those from `j` on. */
  function Cancelled(u: State, r: Request, j: nat): seq<Option<nat>> {
    seq(|u.slots|, x requires 0 <= x < |u.slots| => if j <= x && HoldsEqual(u, x, r) then None else u.slots[x])
  }

  /** Undisturbed, a cancel frees exactly the slots that hold a request equal to it. */
  lemma {:induction false} CancelWalks(bits: set<nat>, size: nat, disk: map<nat, Bytes>, u: State, h: nat, r: Request, j: nat)
      returns (steps: seq<Step>)
    requires !u.panicked && h in u.handlers && u.handlers[h] == Cancelling(r, j)
    ensures Exec(bits, size, disk, u, steps) == Some(u.(handlers := u.handlers - {h}, slots := Cancelled(u, r, j)))
    decreases |u.slots| - j
  {
    hide ReadRequest, Wellformed, NextSender, NextAccept;
    if j >= |u.slots| {
      assert Cancelled(u, r, j) == u.slots;
      steps := [MatchSlot(h)];
      assert steps[1..] == [];
    } else if HoldsEqual(u, j, r) {
      var id := u.slots[j].value;
      var v := u.(handlers := u.handlers[h := Matched(r, j, id)]);
      var w := u.(handlers := u.handlers[h := Cancelling(r, j + 1)], slots := u.slots[j := None]);
      assert v.handlers[h := Cancelling(r, j + 1)] == w.handlers;
      var rest := CancelWalks(bits, size, disk, w, h, r, j + 1);
      assert Cancelled(w, r, j + 1) == Cancelled(u, r, j);
      assert w.handlers - {h} == u.handlers - {h};
      steps := [MatchSlot(h), ClearSlot(h)] + rest;
      TwoSteps(bits, size, disk, u, v, w, MatchSlot(h), ClearSlot(h), rest);
    } else {
      var w := u.(handlers := u.handlers[h := Cancelling(r, j + 1)]);
      var rest := CancelWalks(bits, size, disk, w, h, r, j + 1);
      assert Cancelled(w, r, j + 1) == Cancelled(u, r, j);
      assert w.handlers - {h} == u.handlers - {h};
      steps := [MatchSlot(h)] + rest;
      assert steps[1..] == rest;
    }
  }

  lemma TwoSteps(bits: set<nat>, size: nat, disk: map<nat, Bytes>, u: State, v: State, w: State, a: Step, b: Step, rest: seq<Step>)
    requires Next(bits, size, disk, u, a) == Some(v) && Next(bits, size, disk, v, b) == Some(w)
    ensures Exec(bits, size, disk, u, [a, b] + rest) == Exec(bits, size, disk, w, rest)
  {
    hide Next;
    assert ([a, b] + rest)[1..] == [b] + rest && ([b] + rest)[1..] == rest;
  }

  /** `j` is the first free slot from `i` on, or the number of slots if there is none. */
  predicate FirstFree(u: State, i: nat, j: nat) {
    i <= j <= |u.slots| && (forall x :: i <= x < j ==> u.slots[x] != None) && (j < |u.slots| ==> u.slots[j] == None)
  }

  /** Undisturbed, a handler stores its request in the first free slot, and drops it only if there is none. */
  lemma {:induction false} StoreWalks(bits: set<nat>, size: nat, disk: map<nat, Bytes>, u: State, h: nat, id: nat, i: nat, j: nat)
      returns (steps: seq<Step>)
    requires !u.panicked && h in u.handlers && u.handlers[h] == Storing(id, i) && FirstFree(u, i, j)
    ensures Exec(bits, size, disk, u, steps)
         == Some(u.(handlers := u.handlers - {h}, slots := if j < |u.slots| then u.slots[j := Some(id)] else u.slots))
    decreases j - i
  {
    hide ReadRequest, Wellformed, NextSender, NextAccept;
    if i < j {
      var w := u.(handlers := u.handlers[h := Storing(id, i + 1)]);
      var rest := StoreWalks(bits, size, disk, w, h, id, i + 1, j);
      assert w.handlers - {h} == u.handlers - {h};
      steps := [SeekSlot(h)] + rest;
      assert steps[1..] == rest;
    } else if j == |u.slots| {
      steps := [SeekSlot(h)];
      assert steps[1..] == [];
    } else {
      var v := u.(handlers := u.handlers[h := Claiming(id, j)]);
      var w := v.(handlers := v.handlers - {h}, slots := u.slots[j := Some(id)]);
      assert v.handlers - {h} == u.handlers - {h};
      TwoSteps(bits, size, disk, u, v, w, SeekSlot(h), ClaimSlot(h), []);
      assert [SeekSlot(h), ClaimSlot(h)] + [] == [SeekSlot(h), ClaimSlot(h)];
      steps := [SeekSlot(h), ClaimSlot(h)];
    }
  }

  /** A handler that takes a request for a piece with a bit keeps it as it is, and drops any other. */
  lemma TakesRequest(bits: set<nat>, size: nat, disk: map<nat, Bytes>, u: State, h: nat, r: Request, addr: nat)
    requires !u.panicked && h !in u.handlers && Wellformed(r) && r.index < 8 * size
    ensures Next(bits, size, disk, u, Accept(h, r, addr))
         == Some(if r.index in bits
                 then u.(entries := u.entries + [Entry(r, addr)], handlers := u.handlers[h := Storing(|u.entries|, 0)])
                 else u)
  {
  }

  /**
    A picked request that lies in its file is sent with the bytes it names, its slot is freed and
    its bytes are counted; one that does not is dropped without being sent.
   */
  lemma SenderServes(bits: set<nat>, size: nat, disk: map<nat, Bytes>, u: State) returns (steps: seq<Step>)
    requires !u.panicked && u.sender.Picked? && u.sender.id < |u.entries|
    requires Wellformed(u.entries[u.sender.id].request) && u.entries[u.sender.id].request.index in disk
    requires |disk[u.entries[u.sender.id].request.index]| < U32
    ensures var Picked(i, id) := u.sender;
            var r := u.entries[id].request;
            var file := disk[r.index];
            Exec(bits, size, disk, u, steps)
            == Some(if r.begin < |file| && r.begin + r.length <= |file|
                    then u.(slots := Clear(u.slots, i, id), sender := Sweeping(i + 1), attempts := u.attempts + [id],
                            delivered := u.delivered + [Delivery(id, file[r.begin..r.begin + r.length])],
                            uploaded := u.uploaded + r.length)
                    else u.(slots := Clear(u.slots, i, id), sender := Sweeping(i + 1)))
  {
    var Picked(i, id) := u.sender;
    var r := u.entries[id].request;
    var file := disk[r.index];
    ReadRequestExact(file, r);
    hide NextAccept, NextBusy;
    if r.begin < |file| && r.begin + r.length <= |file| {
      var block := file[r.begin..r.begin + r.length];
      var a := u.(sender := Holding(i, id, block));
      var b := a.(attempts := u.attempts + [id], delivered := u.delivered + [Delivery(id, block)], sender := Sent(i, id, |block|));
      var d := b.(slots := Clear(u.slots, i, id), sender := Counting(i, |block|));
      var e := d.(uploaded := u.uploaded + |block|, sender := Sweeping(i + 1));
      hide ReadRequest;
      assert Next(bits, size, disk, u, ReadFile) == Some(a);
      TwoSteps(bits, size, disk, b, d, e, ReleaseSlot, CountBytes, []);
      TwoSteps(bits, size, disk, u, a, b, ReadFile, SendPiece(true), [ReleaseSlot, CountBytes] + []);
      steps := [ReadFile, SendPiece(true)] + ([ReleaseSlot, CountBytes] + []);
    } else {
      var a := u.(sender := Dropping(i, id));
      var b := u.(slots := Clear(u.slots, i, id), sender := Sweeping(i + 1));
      assert Next(bits, size, disk, u, ReadFile) == Some(a);
      TwoSteps(bits, size, disk, u, a, b, ReadFile, ReleaseSlot, []);
      steps := [ReadFile, ReleaseSlot] + [];
    }
  }

  /** `j` is the first occupied slot from `i` on. */
  predicate FirstTaken(u: State, i: nat, j: nat) {
    i <= j < |u.slots| && (forall x :: i <= x < j ==> u.slots[x] == None) && u.slots[j] != None
  }

  /** The sender walks to the next occupied slot, and from behind the last slot back to the first. */
  lemma {:induction false} SenderFinds(bits: set<nat>, size: nat, disk: map<nat, Bytes>, u: State, j: nat) returns (steps: seq<Step>)
    requires !u.panicked && u.sender.Sweeping? && FirstTaken(u, if u.sender.next < |u.slots| then u.sender.next else 0, j)
    ensures Exec(bits, size, disk, u, steps) == Some(u.(sender := Picked(j, u.slots[j].value)))
    decreases if u.sender.next < |u.slots| then 0 else 1, j - u.sender.next
  {
    hide ReadRequest, NextAccept, NextBusy;
    var i := u.sender.next;
    if i == j {
      steps := [LoadSlot];
      assert steps[1..] == [];
    } else {
      var v := u.(sender := Sweeping(if i < |u.slots| then i + 1 else 0));
      var rest := SenderFinds(bits, size, disk, v, j);
      steps := [LoadSlot] + rest;
      assert steps[1..] == rest;
    }
  }

  // ---------- What else a step may come to ----------

  /** A tracker starts with 75 free upload slots. */
  lemma FreshSlots()
    ensures |Init().slots| == 75 && forall j :: 0 <= j < 75 ==> Init().slots[j] == None
    ensures Init().handlers == map[] && Init().sender == Sweeping(0) && !Init().panicked
  {
  }

  /** A cancel is looked for from the first slot on. */
  lemma TakesCancel(bits: set<nat>, size: nat, disk: map<nat, Bytes>, u: State, h: nat, r: Request)
    requires !u.panicked && h !in u.handlers
    ensures Next(bits, size, disk, u, Cancel(h, r)) == Some(u.(handlers := u.handlers[h := Cancelling(r, 0)]))
  {
  }

  /** A handler that lost the race for a slot starts over with the first one, its request in hand. */
  lemma LostRace(bits: set<nat>, size: nat, disk: map<nat, Bytes>, u: State, h: nat, id: nat, j: nat)
    requires !u.panicked && h in u.handlers && u.handlers[h] == Claiming(id, j) && j < |u.slots| && u.slots[j] != None
    ensures Next(bits, size, disk, u, ClaimSlot(h)) == Some(u.(handlers := u.handlers[h := Storing(id, 0)]))
  {
  }

  /** The slot of a request whose leecher has left is passed over, and keeps the request. */
  lemma LeecherGone(bits: set<nat>, size: nat, disk: map<nat, Bytes>, u: State)
    requires !u.panicked && u.sender.Picked?
    ensures Next(bits, size, disk, u, NoLeecher) == Some(u.(sender := Sweeping(u.sender.slot + 1)))
  {
  }

  /** A block that could not be sent is not counted, but its slot is freed. */
  lemma SendFails(bits: set<nat>, size: nat, disk: map<nat, Bytes>, u: State) returns (steps: seq<Step>)
    requires !u.panicked && u.sender.Holding?
    ensures var Holding(i, id, _) := u.sender;
            Exec(bits, size, disk, u, steps)
            == Some(u.(slots := Clear(u.slots, i, id), sender := Sweeping(i + 1), attempts := u.attempts + [id]))
  {
    var Holding(i, id, _) := u.sender;
    var v := u.(attempts := u.attempts + [id], sender := Dropping(i, id));
    var w := v.(slots := Clear(u.slots, i, id), sender := Sweeping(i + 1));
    TwoSteps(bits, size, disk, u, v, w, SendPiece(false), ReleaseSlot, []);
    steps := [SendPiece(false), ReleaseSlot] + [];
  }
}
