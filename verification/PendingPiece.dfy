/**
  The mutable piece object. `nil` entries, which the source writes into its lists while it
  walks them, are `None`; every method leaves the lists without any.
 */
module PendingPieces {
  import opened Base
  import opened Messages
  import P = Pending
  import R = Reassembly

  ghost predicate NoNil<T>(s: seq<Option<T>>) {
    forall k :: 0 <= k < |s| ==> s[k].Some?
  }

  /** The entries that are not `nil`, in order. */
  function Entries<T>(s: seq<Option<T>>): seq<T> {
    if |s| == 0 then []
    else if s[|s| - 1].Some? then Entries(s[..|s| - 1]) + [s[|s| - 1].value]
    else Entries(s[..|s| - 1])
  }

  /** What `slices.DeleteFunc` leaves when told to delete the `nil` entries. */
  function DeleteNil<T>(s: seq<Option<T>>): (r: seq<Option<T>>)
    ensures NoNil(r) && Entries(r) == Entries(s)
  {
    if |s| == 0 then []
    else if s[|s| - 1].Some? then
      assert (DeleteNil(s[..|s| - 1]) + [s[|s| - 1]])[..|DeleteNil(s[..|s| - 1])|] == DeleteNil(s[..|s| - 1]);
      DeleteNil(s[..|s| - 1]) + [s[|s| - 1]]
    else DeleteNil(s[..|s| - 1])
  }

  lemma {:induction false} EntriesOfFull<T>(s: seq<Option<T>>)
    requires NoNil(s)
    ensures |Entries(s)| == |s| && forall k :: 0 <= k < |s| ==> Entries(s)[k] == s[k].value
  {
    if |s| > 0 {
      EntriesOfFull(s[..|s| - 1]);
    }
  }

  lemma EntriesSnoc<T>(s: seq<Option<T>>, x: T)
    ensures Entries(s + [Some(x)]) == Entries(s) + [x]
    ensures Entries(s + [None]) == Entries(s)
  {
    assert (s + [Some(x)])[..|s|] == s && (s + [None])[..|s|] == s;
  }

  lemma FlagEntry(s: seq<Option<P.Timed>>, k: nat)
    requires NoNil(s) && k < |s|
    ensures |Entries(s)| == |s|
    ensures var t := s[k := Some(s[k].value.(received := true))];
            NoNil(t) && Entries(t) == Entries(s)[k := Entries(s)[k].(received := true)]
  {
    EntriesOfFull(s);
    EntriesOfFull(s[k := Some(s[k].value.(received := true))]);
  }

  lemma LateSnoc(sent: seq<P.Timed>, clock: nat -> int, k: nat)
    requires k < |sent|
    ensures var late := P.Late(sent[k], clock(k));
            && P.Expired(sent, clock, k + 1)
               == (if late then P.Expired(sent, clock, k) + [sent[k].request] else P.Expired(sent, clock, k))
            && P.Kept(sent, clock, k + 1)
               == (if late then P.Kept(sent, clock, k) else P.Kept(sent, clock, k) + [sent[k]])
  {
  }

  lemma NoneLate(sent: seq<P.Timed>, clock: nat -> int)
    ensures P.Expired(sent, clock, 0) == [] && P.Kept(sent, clock, 0) == []
    ensures Entries<P.Timed>([]) == []
  {
  }

  lemma SentSnoc(waiting: seq<Request>, ok: nat -> bool, clock: nat -> int, k: nat)
    requires k < |waiting|
    ensures var t := P.Timed(waiting[k], clock(k), false);
            && P.Sent(waiting, ok, clock, k + 1)
               == (if ok(k) then P.Sent(waiting, ok, clock, k) + [t] else P.Sent(waiting, ok, clock, k))
            && P.Unsent(waiting, ok, k + 1)
               == (if ok(k) then P.Unsent(waiting, ok, k) else P.Unsent(waiting, ok, k) + [waiting[k]])
  {
  }

  lemma NoneSent(waiting: seq<Request>, ok: nat -> bool, clock: nat -> int)
    ensures P.Sent(waiting, ok, clock, 0) == [] && P.Unsent(waiting, ok, 0) == []
    ensures Entries<Request>([]) == []
  {
  }

  datatype Outcome = Untracked | Duplicate | Overflow | Stored

  class PendingPiece {
    var index: int
    var downloaded: int
    var size: int
    var received: seq<Piece>
    var pending: seq<Option<Request>>
    var inFlight: seq<Option<P.Timed>>
    ghost var log: P.Log

    ghost predicate Valid()
      reads this
    {
      NoNil(pending) && NoNil(inFlight)
    }

    /** The value the engine reasons about. */
    ghost function Value(): P.PieceState
      reads this
    {
      P.PieceState(index, size, downloaded, received, Entries(pending), Entries(inFlight), log)
    }

    /** Cuts the piece into requests, 16 KiB each except perhaps the last. */
    constructor (index: int, size: int)
      ensures Valid() && Value() == P.Start(index, size)
    {
      this.index, this.size, this.downloaded := index, size, 0;
      received, inFlight, pending := [], [], [];
      log := P.Log([], [], [], 0);
      new;
      var p := 0;
      while p < size
        invariant 0 <= p
        invariant this.index == index && this.size == size && downloaded == 0 && received == [] && inFlight == []
        invariant log == P.Log([], [], [], 0)
        invariant NoNil(pending) && Entries(pending) + P.Tiling(index, p, size) == P.Tiling(index, 0, size)
        decreases size - p
      {
        var nextBlockSize := REQUEST_SIZE;
        if size < p + nextBlockSize {
          nextBlockSize := size - p;
        }
        var r := Request(index, ToU32(p), ToU32(nextBlockSize));
        EntriesSnoc(pending, r);
        assert Entries(pending) + P.Tiling(index, p, size)
            == (Entries(pending) + [r]) + P.Tiling(index, p + nextBlockSize, size);
        pending := pending + [Some(r)];
        p := p + nextBlockSize;
      }
      assert Entries(pending) == Entries(pending) + P.Tiling(index, p, size);
    }

    /** Moves every late request back to the pending ones. */
    method TimeOut(clock: nat -> int)
      requires Valid()
      modifies this`pending, this`inFlight, this`log
      ensures Valid() && Value() == P.TimeOut(old(Value()), clock)
    {
      hide P.Late, P.Expired, P.Kept, Entries;
      ghost var sent, waiting := Entries(inFlight), Entries(pending);
      EntriesOfFull(inFlight);
      NoneLate(sent, clock);
      var k := 0;
      while k < |inFlight|
        invariant k <= |inFlight| == |sent|
        invariant forall j :: k <= j < |inFlight| ==> inFlight[j] == Some(sent[j])
        invariant Entries(inFlight[..k]) == P.Kept(sent, clock, k)
        invariant NoNil(pending) && Entries(pending) == waiting + P.Expired(sent, clock, k)
        invariant log == old(log)
      {
        var t := inFlight[k].value;
        ghost var before := inFlight[..k];
        EntriesSnoc(before, t);
        LateSnoc(sent, clock, k);
        if P.Late(t, clock(k)) {
          EntriesSnoc(pending, t.request);
          pending := pending + [Some(t.request)];
          inFlight := inFlight[k := None];
          assert inFlight[..k + 1] == before + [None];
        } else {
          assert inFlight[..k + 1] == before + [Some(t)];
        }
        k := k + 1;
      }
      assert inFlight[..k] == inFlight;
      inFlight := DeleteNil(inFlight);
      log := log.(expired := log.expired + P.Expired(sent, clock, |sent|));
    }

    /** Sends pending requests; `ok(k)` says that some usable peer took request `k`. */
    method SendPending(ok: nat -> bool, clock: nat -> int)
      requires Valid()
      modifies this`pending, this`inFlight, this`log
      ensures Valid() && Value() == P.Send(old(Value()), ok, clock)
    {
      hide P.Sent, P.Unsent, Entries;
      ghost var sent, waiting := Entries(inFlight), Entries(pending);
      EntriesOfFull(pending);
      NoneSent(waiting, ok, clock);
      var k := 0;
      while k < |pending|
        invariant k <= |pending| == |waiting|
        invariant forall j :: k <= j < |pending| ==> pending[j] == Some(waiting[j])
        invariant Entries(pending[..k]) == P.Unsent(waiting, ok, k)
        invariant NoNil(inFlight) && Entries(inFlight) == sent + P.Sent(waiting, ok, clock, k)
        invariant log == old(log)
      {
        var r := pending[k].value;
        EntriesSnoc(pending[..k], r);
        SentSnoc(waiting, ok, clock, k);
        if ok(k) {
          var t := P.Timed(r, clock(k), false);
          EntriesSnoc(inFlight, t);
          pending := pending[k := None];
          inFlight := inFlight + [Some(t)];
          assert pending[..k + 1] == pending[..k] + [None];
        } else {
          assert pending[..k + 1] == pending[..k] + [Some(r)];
        }
        k := k + 1;
      }
      assert pending[..k] == pending;
      pending := DeleteNil(pending);
      log := log.(sent := log.sent + P.Requests(P.Sent(waiting, ok, clock, |waiting|)));
    }

    /** Position of the first in-flight request equal to `r`, or -1. */
    method IndexOf(r: Request) returns (k: int)
      requires Valid()
      ensures var at := P.Find(Entries(inFlight), r);
              k == if at == |Entries(inFlight)| then -1 else at
    {
      EntriesOfFull(inFlight);
      ghost var sent := Entries(inFlight);
      k := 0;
      while k < |inFlight|
        invariant 0 <= k <= |inFlight|
        invariant forall j :: 0 <= j < k ==> sent[j].request != r
      {
        if inFlight[k].value.request == r {
          return;
        }
        k := k + 1;
      }
      k := -1;
    }

    /** Matches a block against the requests in flight, drops duplicates, and counts the rest. */
    method Receive(m: Piece) returns (o: Outcome)
      requires Valid()
      modifies this
      ensures Valid()
      ensures match P.Receive(old(Value()), m)
              case Untracked => o == Untracked && Value() == old(Value())
              case Duplicate => o == Duplicate && Value() == old(Value())
              case Overflow => o == Overflow
              case Stored(q) => o == Stored && Value() == q
    {
      var k := IndexOf(Answered(m));
      if k < 0 {
        return Untracked;
      }
      var i := 0;
      while i < |received|
        invariant 0 <= i <= |received|
        invariant forall j :: 0 <= j < i ==> !P.SameBlock(received[j], m)
      {
        if P.SameBlock(received[i], m) {
          return Duplicate;
        }
        i := i + 1;
      }
      downloaded := downloaded + |m.block|;
      if downloaded > size {
        return Overflow;
      }
      EntriesOfFull(inFlight);
      received := received + [m];
      FlagEntry(inFlight, k);
      inFlight := inFlight[k := Some(inFlight[k].value.(received := true))];
      log := log.(accepted := log.accepted + 1);
      return Stored;
    }

    /** Sorts the received blocks by offset and joins them. */
    method Assemble() returns (data: Bytes)
      modifies this`received
      ensures data == R.Assemble(old(Value()))
      ensures received == R.SortByBegin(old(received))
    {
      received := R.SortByBegin(received);
      data := [];
      for k := 0 to |received|
        invariant received == R.SortByBegin(old(received))
        invariant data == Concat(R.Blocks(received)[..k])
      {
        assert R.Blocks(received)[..k + 1][..k] == R.Blocks(received)[..k];
        data := data + received[k].block;
      }
      assert R.Blocks(received)[..|received|] == R.Blocks(received);
    }

    /** Puts every request in flight back to pending; refuses if there already are pending ones. */
    method Retry() returns (ok: bool)
      requires Valid()
      modifies this
      ensures Valid() && ok == P.Retry(old(Value())).Some?
      ensures Value() == if ok then P.Retry(old(Value())).value else old(Value())
    {
      EntriesOfFull(pending);
      if |pending| != 0 {
        return false;
      }
      EntriesOfFull(inFlight);
      ghost var sent := Entries(inFlight);
      for k := 0 to |inFlight|
        invariant NoNil(pending) && Entries(pending) == P.Requests(sent)[..k]
        invariant unchanged(this`inFlight) && unchanged(this`log)
        invariant unchanged(this`index) && unchanged(this`size)
      {
        var t := inFlight[k].value;
        EntriesSnoc(pending, t.request);
        pending := pending + [Some(t.request)];
        assert P.Requests(sent)[..k + 1] == P.Requests(sent)[..k] + [t.request];
      }
      inFlight, received, downloaded := [], [], 0;
      log := log.(retried := log.retried + P.Requests(sent));
      return true;
    }
  }
}
