/** What a seeder serves is what a leecher stores, over all interleavings at both ends. */
module TwoClients {
  import opened Base
  import opened Messages
  import opened Reassembly
  import D = Download
  import DT = DownloadTheorems
  import H = HonestRuns
  import S = System
  import U = Upload

  /** The block is one the seeder delivered, under the index and offset it was asked for. */
  ghost predicate FromSeeder(up: U.State, m: Piece) {
    exists d <- up.delivered :: d.id < |up.entries|
      && m == Piece(up.entries[d.id].request.index, up.entries[d.id].request.begin, d.block)
  }

  /** Every block that arrives for piece `i` was delivered by the seeder. */
  ghost predicate AllFromSeeder(up: U.State, steps: seq<D.Step>, i: nat) {
    forall k :: 0 <= k < |steps| && steps[k].Arrive? && steps[k].m.index == i ==> FromSeeder(up, steps[k].m)
  }

  /** A delivered block repeats the bytes of the seeder's verified file. */
  lemma DeliveredIsHonest(c: D.Config, lost: set<nat>, seeding: seq<S.State>, steps: seq<S.Step>, k: nat, m: Piece, i: nat)
    requires S.IsExecution(c, lost, seeding, steps) && k < |seeding| && FromSeeder(seeding[k].up, m) && m.index == i
    requires i !in lost || seeding[k].down.closed == 0
    ensures i in seeding[k].down.disk && Honest(m, seeding[k].down.disk[i]) && c.Good(i, seeding[k].down.disk[i])
  {
    hide S.IsExecution;
    var up := seeding[k].up;
    var d :| d in up.delivered && d.id < |up.entries|
             && m == Piece(up.entries[d.id].request.index, up.entries[d.id].request.begin, d.block);
    S.ServedIsVerified(c, lost, seeding, steps, k, d);
  }

  /**
    One client seeds, with downloads, uploads and assembly interleaved in any way, and another
    downloads the same torrent. If all blocks that reach the second for a piece are the first
    one's deliveries, late, repeated or out of order as they may be, then what it stores is the
    first one's file.
   */
  lemma StoredIsSeeded(c: D.Config, lost: set<nat>, seeding: seq<S.State>, ups: seq<S.Step>, a: nat,
                       leeching: seq<D.State>, downs: seq<D.Step>, b: nat, i: nat)
    requires S.IsExecution(c, lost, seeding, ups) && a < |seeding| && i in seeding[a].down.bits
    requires i !in lost || seeding[a].down.closed == 0
    requires DT.IsExecution(c, leeching, downs) && b < |leeching| && AllFromSeeder(seeding[a].up, downs, i)
    requires i in leeching[b].bits && i !in leeching[0].bits
    ensures i in S.Files(seeding[a]) && i in leeching[b].disk && leeching[b].disk[i] == S.Files(seeding[a])[i]
  {
    hide S.IsExecution, DT.IsExecution, Honest;
    S.VerifiedForever(c, lost, seeding, ups, a, a, i);
    S.Reachable(c, lost, seeding, ups, a);
    NotOver(c, lost, seeding[a], i);
    var data := seeding[a].down.disk[i];
    forall k | 0 <= k < |downs| && downs[k].Arrive? && downs[k].m.index == i
      ensures Honest(downs[k].m, data)
    {
      DeliveredIsHonest(c, lost, seeding, ups, a, downs[k].m, i);
    }
    H.LeecherRebuildsSeeder(c, leeching, downs, b, i, data);
  }

  lemma NotOver(c: D.Config, lost: set<nat>, s: S.State, i: nat)
    requires S.Inv(c, lost, s) && i in s.down.bits && (i !in lost || s.down.closed == 0)
    ensures i in s.down.disk && S.Files(s)[i] == s.down.disk[i] && c.Good(i, s.down.disk[i])
  {
    DT.BitsAreOnDisk(c, s.down);
  }
}
