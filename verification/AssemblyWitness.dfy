/** Completed torrents that are not assembled as they should be. */
module AssemblyWitness {
  import opened Base
  import opened Torrent
  import opened Paths
  import opened Disk
  import opened Assembly
  import opened Download
  import opened DownloadInvariant
  import opened DownloadTheorems
  import Bencode
  import BencodeRoundTrip
  import Completion
  import Delivery
  import Progress
  import Restart

  // ---------- An output that is a piece file ----------

  lemma PieceNameIsPlain(i: nat)
    ensures Plain(PieceName(i))
  {
    hide Bencode.Decimal;
    BencodeRoundTrip.DecimalIsNumeral(i);
    assert |PieceName(i)| > 4;
  }

  lemma JoinDot(dir: Path)
    ensures Join(dir, [DOT]) == dir
  {
    assert [DOT][1..] == [];
  }

  /** In an existing directory, files with plain names can be created unless a directory is in the way. */
  lemma {:induction false} PlainNamesCreate(d: Disk, dir: Path, paths: seq<seq<Bytes>>, k: nat)
    requires k <= |paths| && dir in d.dirs
    requires forall i :: 0 <= i < |paths| ==> |paths[i]| == 1 && Plain(paths[i][0]) && dir + paths[i] !in d.dirs
    ensures CreateAll(d, dir, paths, k).1 && CreateAll(d, dir, paths, k).0.dirs == d.dirs
  {
    if k > 0 {
      PlainNamesCreate(d, dir, paths, k - 1);
      var path := paths[k - 1];
      assert path == [path[0]];
      JoinPlain(dir, path);
      assert Parent(dir + path) == dir;
    }
  }

  /**
    A torrent named "." whose one file is "0.bin": creating it empties the first piece's file,
    and the first byte is waited for for ever, although no length is negative.
   */
  lemma NamedLikeAPiece(d: Disk, dir: Path, n: nat, pieceLength: int, length: int)
    requires dir in d.dirs && PiecePath(dir, 0) !in d.dirs && 0 < n && 0 < pieceLength && 0 < length
    requires Open(d.files, PiecePaths(dir, n))
    ensures AssembleFiles(d, Join(dir, [DOT]), [FileEntry([PieceName(0)], length)], PiecePaths(dir, n), pieceLength) == Stuck
  {
    var entries := [FileEntry([PieceName(0)], length)];
    var paths := PathsOf(entries);
    PieceNameIsPlain(0);
    JoinDot(dir);
    JoinPlain(dir, [PieceName(0)]);
    PlainNamesCreate(d, dir, paths, 1);
    assert Outputs(dir, paths)[0] == PiecePaths(dir, n)[0];
    FirstPieceIsOutput(d, dir, entries, PiecePaths(dir, n), pieceLength, 0);
  }

  // ---------- Two outputs with the same path ----------

  /** Two files of one byte with the same path: all copies are made, and the first byte is lost. */
  lemma SamePathTwice(d: Disk, dir: Path, name: Bytes, pieces: seq<Path>, x: byte, y: byte)
    requires dir in d.dirs && Plain(name) && dir + [name] !in d.dirs && dir + [name] !in pieces && x != y
    requires Holds(d.files, pieces, [[x], [y]])
    ensures var entries := [FileEntry([name], 1), FileEntry([name], 1)];
            var r, outs := AssembleFiles(d, dir, entries, pieces, 1), Outputs(dir, PathsOf(entries));
            && r.Assembled? && !EachHolds(r.disk.files, outs, LengthsOf(entries), [x, y])
            && dir + [name] in r.disk.files && r.disk.files[dir + [name]] == [y]
  {
    var entries := [FileEntry([name], 1), FileEntry([name], 1)];
    var contents: seq<Bytes> := [[x], [y]];
    var paths, lengths := PathsOf(entries), LengthsOf(entries);
    JoinPlain(dir, [name]);
    PlainNamesCreate(d, dir, paths, 2);
    var outs := Outputs(dir, paths);
    var first: seq<Bytes> := [[x]];
    assert first[..0] == [] && Concat(first) == [x];
    assert contents[..1] == first;
    assert Concat(contents) == [x, y];
    OneByteEach(lengths, [x, y]);
    AssemblyExact(d, dir, entries, pieces, contents, 1);
    var e := Prepare(d, dir, paths).0;
    assert outs[0] == outs[1] == dir + [name];
    LastOfTwo(d, dir, entries, pieces, contents);
  }

  lemma OneByteEach(lengths: seq<int>, all: Bytes)
    requires lengths == [1, 1] && |all| == 2
    ensures Sum(Wanted(lengths)) == 2 && Range(lengths, all, 0) == [all[0]] && Range(lengths, all, 1) == [all[1]]
  {
    var wanted := Wanted(lengths);
    assert wanted == [1, 1] && wanted[..1] == [1] && [1][..0] == [] && wanted[..0] == [];
  }

  lemma LastOfTwo(d: Disk, dir: Path, entries: seq<FileEntry>, pieces: seq<Path>, contents: seq<Bytes>)
    requires |entries| == 2 && LengthsOf(entries) == [1, 1] && |Concat(contents)| == 2
    requires Prepare(d, dir, PathsOf(entries)).1 && Holds(d.files, pieces, contents) && Full(contents, 1)
    requires Apart(Outputs(dir, PathsOf(entries)), pieces)
    requires Outputs(dir, PathsOf(entries))[0] == Outputs(dir, PathsOf(entries))[1]
    ensures var r, out := AssembleFiles(d, dir, entries, pieces, 1), Outputs(dir, PathsOf(entries))[0];
            r.Assembled? ==> out in r.disk.files && r.disk.files[out] == [Concat(contents)[1]]
  {
    hide Prepare, CopyFiles, Concat, Sum, Range, Full;
    var paths, lengths, all := PathsOf(entries), LengthsOf(entries), Concat(contents);
    var outs, e := Outputs(dir, paths), Prepare(d, dir, paths).0;
    forall p
      ensures if p in outs then p in e.files && e.files[p] == []
              else (p in e.files <==> p in d.files) && (p in d.files ==> e.files[p] == d.files[p])
    {
      PrepareTruncates(d, dir, paths, p);
    }
    CopyFilesExact(e.files, outs, lengths, pieces, 1, contents, 2);
    OneByteEach(lengths, all);
    assert Overwritten(e.files, outs, lengths, all, 1)[outs[0]] == [all[0]] + Tail([], 1);
  }

  // ---------- A file of negative length ----------

  /** One piece of one byte, for files of two and of minus one bytes. */
  function Negative(): MetaInfo {
    MetaInfo(1, MultiFile([2, -1]), seq(20, i => 0))
  }

  function Digest(data: Bytes): Bytes {
    seq(20, i => 0)
  }

  lemma NegativeIsSane()
    ensures Negative().Geometry() && Negative().NumPieces() == 1
    ensures PieceSizes(Negative()) == [1]
    ensures var c := Restart.ConfigOf(Negative(), Digest);
            c.Valid() && c.sizes == [1] && Completion.DataExist(c, [[0]])
  {
    var m := Negative();
    assert [2, -1][..1] == [2] && [2][..0] == [];
    assert Sum([2, -1]) == 1;
    assert PieceSizes(m) == [1];
    Restart.ConfigOfValid(m, Digest);
    var c := Restart.ConfigOf(m, Digest);
    assert c.hashes[0] == m.pieces[0..20] == Digest([0]);
  }

  /** Where an execution leads that goes on as `Exec` does. */
  lemma {:induction false} GoOn(c: Config, run: seq<State>, steps: seq<Step>, more: seq<Step>, t: State)
      returns (longer: seq<State>, all: seq<Step>)
    requires IsExecution(c, run, steps) && Progress.Exec(c, run[|steps|], more) == Some(t)
    ensures IsExecution(c, longer, all) && longer[|all|] == t
    decreases |more|
  {
    hide Next, StorageOk, NewTracker;
    if |more| == 0 {
      longer, all := run, steps;
    } else {
      var u := Next(c, run[|steps|], more[0]).value;
      var run', steps' := run + [u], steps + [more[0]];
      forall k | 0 <= k < |steps'|
        ensures Next(c, run'[k], steps'[k]) == Some(run'[k + 1])
      {
        if k < |steps| {
          assert Next(c, run[k], steps[k]) == Some(run[k + 1]);
        }
      }
      longer, all := GoOn(c, run', steps', more[1..], t);
    }
  }

  /**
    A torrent with a file of negative length passes all checks and can be downloaded to the end,
    but then it can never be assembled, whatever the names.
   */
  lemma NegativeLength() returns (run: seq<State>, steps: seq<Step>)
    ensures Negative().Geometry() && IsExecution(Restart.ConfigOf(Negative(), Digest), run, steps)
    ensures run[|steps|].closed == 1
    ensures forall d, dir, parent, entries |
              && Delivery.Stored(d, dir, run[|steps|], 1) && LengthsOf(entries) == [2, -1]
              && Prepare(d, parent, PathsOf(entries)).1 && Apart(Outputs(parent, PathsOf(entries)), PiecePaths(dir, 1)) ::
              AssembleFiles(d, parent, entries, PiecePaths(dir, 1), 1) == Stuck
  {
    NegativeIsSane();
    hide Prepare, AssembleFiles, Restart.ConfigOf;
    var m, c := Negative(), Restart.ConfigOf(Negative(), Digest);
    var s := NewTracker(c, {}, map[]);
    assert StorageOk(c, {}, map[]);
    assert IsExecution(c, [s], []);
    var t := Completion.CompletionStaysReachable(c, [s], [], 0, [[0]]);
    var more :| Progress.Exec(c, s, more) == Some(t);
    run, steps := GoOn(c, [s], [], more, t);
    hide IsExecution;
    forall d, dir, parent, entries |
      && Delivery.Stored(d, dir, run[|steps|], 1) && LengthsOf(entries) == [2, -1]
      && Prepare(d, parent, PathsOf(entries)).1 && Apart(Outputs(parent, PathsOf(entries)), PiecePaths(dir, 1))
      ensures AssembleFiles(d, parent, entries, PiecePaths(dir, 1), 1) == Stuck
    {
      assert LengthsOf(entries)[1] == -1;
      Delivery.AssembleCompleted(m, Digest, run, steps, |steps|, d, dir, parent, entries);
    }
  }
}
