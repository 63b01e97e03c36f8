/** Opening a tracker on what an earlier run left behind. */
module Restart {
  import opened Base
  import opened Torrent
  import opened BitField
  import opened Download
  import opened DownloadInvariant
  import opened DownloadTheorems

  // ---------- From the metainfo file to the engine ----------

  ghost function ConfigOf(m: MetaInfo, sha1: Bytes -> Bytes): Config
    requires m.Geometry()
  {
    Config(PieceSizes(m),
           seq(m.NumPieces(), i requires 0 <= i < m.NumPieces() => m.pieces[20 * i..20 * i + 20]),
           sha1)
  }

  /** The engine's assumptions hold of every torrent of sane shape; its hashes are the ones read. */
  lemma ConfigOfValid(m: MetaInfo, sha1: Bytes -> Bytes)
    requires m.Geometry()
    ensures var c := ConfigOf(m, sha1);
            && c.Valid() && |c.sizes| == m.NumPieces() && c.Total() == m.Total()
            && forall i :: 0 <= i < m.NumPieces() ==> m.PieceHash(i) == Some(c.hashes[i])
  {
    SizesSumToTotal(m);
    forall i | 0 <= i < m.NumPieces()
      ensures 0 < PieceSizes(m)[i] < U32
      ensures m.PieceHash(i) == Some(m.pieces[20 * i..20 * i + 20])
    {
      PieceSizeShape(m, i);
      PieceHashExact(m, i);
    }
  }

  // ---------- The byte counter ----------

  function SumOfSizes(m: MetaInfo, indexes: seq<nat>): int {
    if |indexes| == 0 then 0
    else SumOfSizes(m, indexes[..|indexes| - 1]) + m.PieceSize(indexes[|indexes| - 1])
  }

  /** Adds up the sizes of the pieces a saved bitfield claims, as the restart code does. */
  method CountExisting(m: MetaInfo, existing: seq<nat>) returns (downloaded: int)
    ensures downloaded == SumOfSizes(m, existing)
  {
    var total := BytesToDownload(m);
    downloaded := 0;
    for k := 0 to |existing|
      invariant downloaded == SumOfSizes(m, existing[..k])
    {
      var pieceStart := existing[k] * m.pieceLength;
      var pieceEnd := Min(pieceStart + m.pieceLength, total);
      assert existing[..k + 1][..k] == existing[..k];
      downloaded := downloaded + (pieceEnd - pieceStart);
    }
    assert existing[..|existing|] == existing;
  }

  function SavedBits(saved: seq<bv8>, n: nat): set<nat>
    requires n <= 8 * |saved|
  {
    set i | i in Listing(saved, n, true)
  }

  lemma {:induction false} CountExistingIsExisting(m: MetaInfo, sha1: Bytes -> Bytes, saved: seq<bv8>, n: nat, k: nat)
    requires m.Geometry() && k <= n == m.NumPieces() <= 8 * |saved|
    ensures SumOfSizes(m, Listing(saved, k, true)) == Existing(ConfigOf(m, sha1), SavedBits(saved, n), k)
  {
    ListingExact(saved, n, true);
    if k > 0 {
      CountExistingIsExisting(m, sha1, saved, n, k - 1);
      var before := Listing(saved, k - 1, true);
      assert (before + [k - 1])[..|before|] == before;
    }
  }

  // ---------- Restart safety ----------

  /**
    `Close` saves the bitfield while receivers may still be finishing pieces. The saved bits
    are verified pieces then and ever after, so a tracker opened on them and on the files found
    later starts with verified storage, the right byte counter and the whole invariant.
   */
  lemma RestartIsSafe(m: MetaInfo, sha1: Bytes -> Bytes, run: seq<State>, steps: seq<Step>,
                      a: nat, b: nat, saved: seq<bv8>)
    requires m.Geometry() && IsExecution(ConfigOf(m, sha1), run, steps) && a <= b < |run|
    requires m.NumPieces() <= 8 * |saved|
    requires Marked(saved) == run[a].bits
    ensures var c, bits := ConfigOf(m, sha1), SavedBits(saved, m.NumPieces());
            var s := NewTracker(c, bits, run[b].disk);
            && bits == run[a].bits <= run[b].bits
            && StorageOk(c, bits, run[b].disk)
            && Inv(c, s)
            && s.downloaded == SumOfSizes(m, Listing(saved, m.NumPieces(), true))
            && (forall i :: i in s.unverified <==> 0 <= i < m.NumPieces() && i !in run[a].bits)
            && IsExecution(c, [s], [])
  {
    hide Inv, Next;
    var c, n := ConfigOf(m, sha1), m.NumPieces();
    ConfigOfValid(m, sha1);
    Reachable(c, run, steps, 0);
    Reachable(c, run, steps, a);
    RunIsMonotone(c, run, steps, a, b);
    BitsAreOnDisk(c, run[a]);
    BitsAreIndexes(c, run[a]);
    ListingExact(saved, n, true);
    var bits := SavedBits(saved, n);
    assert bits == run[a].bits;
    forall i <- bits
      ensures i in run[b].disk && c.Good(i, run[b].disk[i])
    {
      assert i in run[a].bits;
    }
    InitInv(c, bits, run[b].disk);
    CountExistingIsExisting(m, sha1, saved, n, n);
  }

  lemma BitsAreIndexes(c: Config, s: State)
    requires Inv(c, s)
    ensures forall i <- s.bits :: i < |c.sizes|
  {
    forall i <- s.bits
      ensures i < |c.sizes|
    {
      assert IndexOk(c, s, i);
    }
  }
}
