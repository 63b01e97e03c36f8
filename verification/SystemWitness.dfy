/** A seeder that serves what the assembly left in a piece's file. */
module SystemWitness {
  import opened Base
  import opened Messages
  import opened System
  import D = Download
  import DI = DownloadInvariant
  import U = Upload

  /** The states of an idle upload side that takes and serves one request, for one byte of piece `i`. */
  function Serving(u: U.State, i: nat, block: Bytes): seq<U.State> {
    var v := u.(entries := [U.Entry(Request(i, 0, 1), 0)]);
    var busy := [Some(0)] + seq(U.SLOTS - 1, k => None);
    [v.(handlers := map[0 := U.Storing(0, 0)]),
     v.(handlers := map[0 := U.Claiming(0, 0)]),
     v.(slots := busy),
     v.(slots := busy, sender := U.Picked(0, 0)),
     v.(slots := busy, sender := U.Holding(0, 0, block)),
     v.(slots := busy, sender := U.Sent(0, 0, |block|), attempts := [0], delivered := [U.Delivery(0, block)])]
  }

  function ServingSteps(i: nat): seq<U.Step> {
    [U.Accept(0, Request(i, 0, 1), 0), U.SeekSlot(0), U.ClaimSlot(0), U.LoadSlot, U.ReadFile, U.SendPiece(true)]
  }

  lemma Serves(bits: set<nat>, size: nat, disk: map<nat, Bytes>, i: nat, k: nat)
    requires i in bits && i < 8 * size && i < U32 && i in disk && |disk[i]| > 0 && k < 6
    ensures var states := [U.Init()] + Serving(U.Init(), i, disk[i][0..1]);
            U.Next(bits, size, disk, states[k], ServingSteps(i)[k]) == Some(states[k + 1])
  {
    var u := U.Init();
    var states := [u] + Serving(u, i, disk[i][0..1]);
    if k == 0 {
      assert u.entries + [U.Entry(Request(i, 0, 1), 0)] == [U.Entry(Request(i, 0, 1), 0)];
      assert map[][0 := U.Storing(0, 0)] == map[0 := U.Storing(0, 0)];
    } else if k == 1 {
      assert map[0 := U.Storing(0, 0)][0 := U.Claiming(0, 0)] == map[0 := U.Claiming(0, 0)];
    } else if k == 2 {
      assert map[0 := U.Claiming(0, 0)] - {0} == map[];
      assert u.slots[0 := Some(0)] == states[3].slots;
    } else if k == 5 {
      assert u.attempts + [0] == [0];
      assert u.delivered + [U.Delivery(0, disk[i][0..1])] == [U.Delivery(0, disk[i][0..1])];
    }
  }

  /**
    A completed torrent of which an output is piece `i`'s file: after the assembly wrote there,
    a request for the piece is answered with what was written, whatever it is.
   */
  lemma LostIsServed(c: D.Config, lost: set<nat>, run: seq<State>, steps: seq<Step>, i: nat, content: Bytes)
      returns (longer: seq<State>, more: seq<Step>)
    requires IsExecution(c, lost, run, steps) && i in lost && i < |c.sizes| && |content| > 0
    requires run[|steps|].down.closed == 1 && run[|steps|].up == U.Init()
    ensures IsExecution(c, lost, longer, more) && run <= longer
    ensures var u := longer[|more|].up;
            && u.delivered == [U.Delivery(0, content[0..1])]
            && u.entries == [U.Entry(Request(i, 0, 1), 0)]
  {
    hide IsExecution, DI.Inv, U.Inv, U.Next, Serving;
    SizesFit(c, lost, run, steps);
    var s := run[|steps|];
    Reachable(c, lost, run, steps, |steps|);
    ClosedHasAll(c, s.down, i);
    var t := s.(over := s.over[i := content]);
    Extend(c, lost, run, steps, Overwrite(i, content), t);
    longer, more := run + [t], steps + [Overwrite(i, content)];
    var ups := [U.Init()] + Serving(U.Init(), i, content[0..1]);
    ServingShape(i, content[0..1]);
    for k := 0 to 6
      invariant IsExecution(c, lost, longer, more) && run <= longer && |longer| == |more| + 1
      invariant longer[|more|] == t.(up := ups[k])
    {
      ServingCalm(i, content[0..1], k);
      Serves(t.down.bits, BitfieldBytes(c), Files(t), i, k);
      assert Files(longer[|more|]) == Files(t);
      Extend(c, lost, longer, more, Up(ServingSteps(i)[k]), t.(up := ups[k + 1]));
      longer, more := longer + [t.(up := ups[k + 1])], more + [Up(ServingSteps(i)[k])];
    }
  }

  lemma ServingShape(i: nat, block: Bytes)
    ensures var states := Serving(U.Init(), i, block);
            |states| == 6 && states[5].delivered == [U.Delivery(0, block)] && states[5].entries == [U.Entry(Request(i, 0, 1), 0)]
  {
  }

  lemma ServingCalm(i: nat, block: Bytes, k: nat)
    requires k < 6
    ensures |Serving(U.Init(), i, block)| == 6 && !([U.Init()] + Serving(U.Init(), i, block))[k].panicked
  {
  }

  lemma SizesFit(c: D.Config, lost: set<nat>, run: seq<State>, steps: seq<Step>)
    requires IsExecution(c, lost, run, steps)
    ensures |c.sizes| <= U32 && |c.sizes| <= 8 * BitfieldBytes(c) && |run| == |steps| + 1
  {
  }
}
