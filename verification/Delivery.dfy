/** A completed download satisfies what assembling its files relies on. */
module Delivery {
  import opened Base
  import opened Torrent
  import opened Paths
  import opened Disk
  import opened Assembly
  import opened Download
  import opened DownloadTheorems
  import Restart
  import SingleFile

  /** The piece files 0 to n-1, in the order of `ExistingPieces`. */
  function PieceFiles(s: State, n: nat): seq<Bytes> {
    seq(n, i requires 0 <= i < n => if i in s.disk then s.disk[i] else [])
  }

  lemma {:induction false} ConcatOfSizes(pieces: seq<Bytes>, sizes: seq<int>)
    requires |pieces| == |sizes| && forall i :: 0 <= i < |sizes| ==> |pieces[i]| == sizes[i]
    ensures |Concat(pieces)| == Sum(sizes)
  {
    ConcatLength(pieces);
    assert Lengths(pieces) == sizes;
  }

  /**
    When `completed` is closed, the piece files 0 to n-1 all have their expected digests, are
    cut at the piece length, and add up to the torrent: the assembly loops cannot run short.
   */
  lemma CompletedCanBeAssembled(m: MetaInfo, sha1: Bytes -> Bytes, run: seq<State>, steps: seq<Step>, k: nat)
    requires m.Geometry() && IsExecution(Restart.ConfigOf(m, sha1), run, steps) && k < |run|
    requires run[k].closed == 1
    ensures var pieces := PieceFiles(run[k], m.NumPieces());
            && Full(pieces, m.pieceLength)
            && |Concat(pieces)| == m.Total()
            && forall i :: 0 <= i < m.NumPieces() ==> m.PieceHash(i) == Some(sha1(pieces[i]))
  {
    hide IsExecution;
    var c, n, pieces := Restart.ConfigOf(m, sha1), m.NumPieces(), PieceFiles(run[k], m.NumPieces());
    Restart.ConfigOfValid(m, sha1);
    CompletionIsSound(c, run, steps, k);
    forall i: nat | i < n
      ensures |pieces[i]| == c.sizes[i] == m.PieceSize(i) && c.hashes[i] == sha1(pieces[i])
      ensures i < n - 1 ==> |pieces[i]| == m.pieceLength
      ensures 0 < |pieces[i]| <= m.pieceLength
    {
      assert i in run[k].bits;
      VerifiedStorage(c, run, steps, k, i);
      PieceSizeShape(m, i);
    }
    ConcatOfSizes(pieces, c.sizes);
  }

  // ---------- In the directory of the download ----------

  /** The directory holds the piece files as the engine left them. */
  ghost predicate Stored(d: Disk, dir: Path, s: State, n: nat) {
    forall i :: 0 <= i < n ==> i in s.disk && PiecePath(dir, i) in d.files && d.files[PiecePath(dir, i)] == s.disk[i]
  }

  predicate NoneNegative(lengths: seq<int>) {
    forall k :: 0 <= k < |lengths| ==> 0 <= lengths[k]
  }

  ghost predicate AllDifferent(outs: seq<Path>) {
    forall j, k :: 0 <= j < k < |outs| ==> outs[j] != outs[k]
  }

  /** What the lemmas below say of a completed download whose piece files are in `dir`. */
  lemma StoredPieces(m: MetaInfo, sha1: Bytes -> Bytes, run: seq<State>, steps: seq<Step>, k: nat, d: Disk, dir: Path)
    requires m.Geometry() && IsExecution(Restart.ConfigOf(m, sha1), run, steps) && k < |run| && run[k].closed == 1
    requires Stored(d, dir, run[k], m.NumPieces())
    ensures var pieces, contents := PiecePaths(dir, m.NumPieces()), PieceFiles(run[k], m.NumPieces());
            && Holds(d.files, pieces, contents) && Full(contents, m.pieceLength) && |Concat(contents)| == m.Total()
            && (forall j :: 0 <= j < |contents| ==> contents[j] != [])
            && AllDifferent(pieces)
  {
    CompletedCanBeAssembled(m, sha1, run, steps, k);
    FullNotEmpty(PieceFiles(run[k], m.NumPieces()), m.pieceLength);
    forall i, j | 0 <= i < j < m.NumPieces()
      ensures PiecePath(dir, i) != PiecePath(dir, j)
    {
      OwnNames(dir, i, j);
    }
  }

  /**
    Assembling a completed multi-file torrent is flawless if and only if its outputs can be
    created, none of them is a piece file, no length is negative, and files with the same path
    are to hold the same bytes.
   */
  lemma AssembleCompleted(m: MetaInfo, sha1: Bytes -> Bytes, run: seq<State>, steps: seq<Step>, k: nat,
                          d: Disk, dir: Path, parent: Path, entries: seq<FileEntry>)
    requires m.Geometry() && m.layout == MultiFile(LengthsOf(entries))
    requires IsExecution(Restart.ConfigOf(m, sha1), run, steps) && k < |run| && run[k].closed == 1
    requires Stored(d, dir, run[k], m.NumPieces())
    ensures var outs, pieces := Outputs(parent, PathsOf(entries)), PiecePaths(dir, m.NumPieces());
            var contents, created := PieceFiles(run[k], m.NumPieces()), Prepare(d, parent, PathsOf(entries)).1;
            && (Flawless(d, parent, entries, pieces, contents, m.pieceLength) <==>
                  && created && Apart(outs, pieces) && NoneNegative(LengthsOf(entries))
                  && PathsAgree(outs, LengthsOf(entries), Concat(contents)))
            && (created && Apart(outs, pieces) ==>
                  match AssembleFiles(d, parent, entries, pieces, m.pieceLength)
                  case NotCreated(_) => false
                  case Stuck => !NoneNegative(LengthsOf(entries))
                  case Assembled(_) => NoneNegative(LengthsOf(entries)))
  {
    hide IsExecution, Flawless, Prepare, Full, Holds;
    var contents := PieceFiles(run[k], m.NumPieces());
    StoredPieces(m, sha1, run, steps, k, d, dir);
    AssemblyExact(d, parent, entries, PiecePaths(dir, m.NumPieces()), contents, m.pieceLength);
    WantedExact(LengthsOf(entries));
  }

  /**
    The guard a caller can check: outputs that can be created, with different paths, none of them
    a file of the client's own, and no negative length. Then every output holds its range, the
    outputs in order are the torrent, and the piece files and the saved bitfield are untouched.
   */
  lemma GuardedAssembly(m: MetaInfo, sha1: Bytes -> Bytes, run: seq<State>, steps: seq<Step>, k: nat,
                        d: Disk, dir: Path, parent: Path, entries: seq<FileEntry>)
    requires m.Geometry() && m.layout == MultiFile(LengthsOf(entries))
    requires IsExecution(Restart.ConfigOf(m, sha1), run, steps) && k < |run| && run[k].closed == 1
    requires Stored(d, dir, run[k], m.NumPieces()) && Prepare(d, parent, PathsOf(entries)).1
    requires var outs := Outputs(parent, PathsOf(entries));
             && AllDifferent(outs) && Apart(outs, PiecePaths(dir, m.NumPieces())) && BitfieldPath(dir) !in outs
    requires NoneNegative(LengthsOf(entries))
    ensures var outs, lengths, n := Outputs(parent, PathsOf(entries)), LengthsOf(entries), m.NumPieces();
            var r, all := AssembleFiles(d, parent, entries, PiecePaths(dir, n), m.pieceLength), Concat(PieceFiles(run[k], n));
            && r.Assembled? && EachHolds(r.disk.files, outs, lengths, all)
            && Concat(seq(|outs|, i requires 0 <= i < |outs| => r.disk.files[outs[i]])) == all
            && Stored(r.disk, dir, run[k], n)
            && forall p <- d.files :: p !in outs ==> p in r.disk.files && r.disk.files[p] == d.files[p]
  {
    hide IsExecution, Prepare, Full, Offset, Sum, Range, Concat, AssembleFiles;
    var outs, lengths, n := Outputs(parent, PathsOf(entries)), LengthsOf(entries), m.NumPieces();
    var pieces, contents := PiecePaths(dir, n), PieceFiles(run[k], n);
    var r, all := AssembleFiles(d, parent, entries, pieces, m.pieceLength), Concat(contents);
    StoredPieces(m, sha1, run, steps, k, d, dir);
    WantedExact(lengths);
    AssemblyExact(d, parent, entries, pieces, contents, m.pieceLength);
    NoOffsetWanted(lengths);
    RangesJoin(lengths, all, |lengths|);
    assert seq(|outs|, i requires 0 <= i < |outs| => r.disk.files[outs[i]])
        == seq(|outs|, i requires 0 <= i < |outs| => Range(lengths, all, i));
    forall i | 0 <= i < n
      ensures PiecePath(dir, i) in r.disk.files && r.disk.files[PiecePath(dir, i)] == run[k].disk[i]
    {
      assert pieces[i] == PiecePath(dir, i) && pieces[i] in d.files && pieces[i] in pieces;
    }
  }

  /** How many bytes the first `k` entries take up. */
  function Before(entries: seq<FileEntry>, k: nat): int
    requires k <= |entries|
  {
    if k == 0 then 0 else Before(entries, k - 1) + entries[k - 1].length
  }

  lemma {:induction false} BeforeIsOffset(entries: seq<FileEntry>, k: nat)
    requires k <= |entries| && forall i :: 0 <= i < |entries| ==> 0 <= entries[i].length
    ensures Before(entries, k) == Offset(Wanted(LengthsOf(entries)), k)
  {
    NoOffset(Wanted(LengthsOf(entries)));
    if k > 0 {
      BeforeIsOffset(entries, k - 1);
      OffsetStep(Wanted(LengthsOf(entries)), k - 1);
    }
  }

  lemma EntryRange(entries: seq<FileEntry>, all: Bytes, j: nat)
    requires j < |entries| && |all| == Sum(LengthsOf(entries))
    requires forall i :: 0 <= i < |entries| ==> 0 <= entries[i].length
    ensures 0 <= Before(entries, j) && Before(entries, j) + entries[j].length <= |all| == Before(entries, |entries|)
    ensures Range(LengthsOf(entries), all, j) == all[Before(entries, j)..Before(entries, j) + entries[j].length]
  {
    hide Offset, Sum, Before;
    var lengths := LengthsOf(entries);
    WantedExact(lengths);
    NoOffsetWanted(lengths);
    BeforeIsOffset(entries, j);
    BeforeIsOffset(entries, |entries|);
    OffsetBounds(Wanted(lengths), j);
    OffsetBounds(Wanted(lengths), j + 1);
    OffsetStep(Wanted(lengths), j);
  }

  /**
    The same entry by entry: under that guard, the file at the torrent's directory and the entry's
    path holds as many bytes as the entry says, and these follow the bytes of the entries before it.
   */
  lemma FilesExact(m: MetaInfo, sha1: Bytes -> Bytes, run: seq<State>, steps: seq<Step>, k: nat,
                   d: Disk, dir: Path, parent: Path, entries: seq<FileEntry>, j: nat)
    requires m.Geometry() && m.layout == MultiFile(LengthsOf(entries))
    requires IsExecution(Restart.ConfigOf(m, sha1), run, steps) && k < |run| && run[k].closed == 1
    requires Stored(d, dir, run[k], m.NumPieces()) && Prepare(d, parent, PathsOf(entries)).1
    requires var outs := Outputs(parent, PathsOf(entries));
             && AllDifferent(outs) && Apart(outs, PiecePaths(dir, m.NumPieces())) && BitfieldPath(dir) !in outs
    requires forall i :: 0 <= i < |entries| ==> 0 <= entries[i].length
    requires j < |entries| && AllPlain(entries[j].path)
    ensures var r := AssembleFiles(d, parent, entries, PiecePaths(dir, m.NumPieces()), m.pieceLength);
            var all, from, out := Concat(PieceFiles(run[k], m.NumPieces())), Before(entries, j), parent + entries[j].path;
            && 0 <= from && from + entries[j].length <= |all| == Before(entries, |entries|)
            && r.Assembled? && out in r.disk.files && r.disk.files[out] == all[from..from + entries[j].length]
  {
    hide IsExecution, Prepare, Full, Offset, Sum, Concat, AssembleFiles, Range, Before, Wanted;
    StoredPieces(m, sha1, run, steps, k, d, dir);
    GuardedAssembly(m, sha1, run, steps, k, d, dir, parent, entries);
    assert PathsOf(entries)[j] == entries[j].path;
    OutputsExact(parent, PathsOf(entries), j);
    EntryRange(entries, Concat(PieceFiles(run[k], m.NumPieces())), j);
  }

  /** A completed single-file torrent is assembled if and only if it can be created and is no piece file. */
  lemma AssembleCompletedSingle(m: MetaInfo, sha1: Bytes -> Bytes, run: seq<State>, steps: seq<Step>, k: nat,
                                d: Disk, dir: Path, out: Path)
    requires m.Geometry() && IsExecution(Restart.ConfigOf(m, sha1), run, steps) && k < |run| && run[k].closed == 1
    requires Stored(d, dir, run[k], m.NumPieces())
    ensures var pieces, contents := PiecePaths(dir, m.NumPieces()), PieceFiles(run[k], m.NumPieces());
            var r := SingleFile.AssembleSingle(d, out, pieces, m.Total());
            && (r.Complete? <==> Create(d, out).Some? && out !in pieces)
            && (r.Complete? ==> r.disk == d.(files := d.files[out := Concat(contents)]))
  {
    hide IsExecution, Full, Concat;
    StoredPieces(m, sha1, run, steps, k, d, dir);
    SingleFile.SingleExact(d, out, PiecePaths(dir, m.NumPieces()), PieceFiles(run[k], m.NumPieces()), m.Total());
  }
}
