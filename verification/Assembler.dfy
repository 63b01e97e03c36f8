/** Assembling as the client's loops do it, over open files that keep their own offsets. */
module Assembler {
  import opened Base
  import opened Paths
  import D = Disk
  import A = Assembly
  import S = SingleFile

  /** The directory tree that all open files share. */
  class FileSystem {
    var disk: D.Disk

    constructor (disk: D.Disk)
      ensures this.disk == disk
    {
      this.disk := disk;
    }
  }

  /** An open file: reading or writing moves its offset. */
  class OpenFile {
    const path: Path
    var offset: nat

    constructor (path: Path)
      ensures this.path == path && offset == 0
    {
      this.path, this.offset := path, 0;
    }
  }

  ghost predicate Distinct(files: seq<OpenFile>) {
    forall i, j :: 0 <= i < j < |files| ==> files[i] != files[j]
  }

  ghost function PathsOf(files: seq<OpenFile>): seq<Path> {
    seq(|files|, k requires 0 <= k < |files| => files[k].path)
  }

  /** Pieces behind the current one are unread, the current one is read up to `offset`. */
  ghost predicate Handles(pieces: seq<OpenFile>, cp: nat, offset: int)
    reads pieces
  {
    && (cp < |pieces| ==> pieces[cp].offset == offset)
    && forall k :: cp < k < |pieces| ==> pieces[k].offset == 0
  }

  /** `io.CopyN`, which moves both offsets by what was copied. */
  method CopyN(fs: FileSystem, from: OpenFile, to: OpenFile, n: nat) returns (w: nat)
    requires from != to && from.path in fs.disk.files && to.path in fs.disk.files
    modifies fs, from`offset, to`offset
    ensures (fs.disk.files, w) == D.CopyN(old(fs.disk.files), from.path, old(from.offset), to.path, old(to.offset), n)
    ensures fs.disk.dirs == old(fs.disk.dirs)
    ensures from.offset == old(from.offset) + w && to.offset == old(to.offset) + w
  {
    var r := D.CopyN(fs.disk.files, from.path, from.offset, to.path, to.offset, n);
    fs.disk, w := fs.disk.(files := r.0), r.1;
    from.offset, to.offset := from.offset + w, to.offset + w;
  }

  /** Copies from the current piece and moves on to the next one where it ends. */
  method CopyChunk(fs: FileSystem, out: OpenFile, n: nat, pieces: seq<OpenFile>, pieceLength: int, cp0: nat, l0: int)
      returns (ok: bool, cp: nat, l: int)
    requires Distinct(pieces) && out !in pieces && out.path in fs.disk.files && A.Open(fs.disk.files, PathsOf(pieces))
    requires 0 < n <= l0 <= pieceLength && Handles(pieces, cp0, pieceLength - l0)
    modifies fs, out, pieces
    ensures fs.disk.dirs == old(fs.disk.dirs)
    ensures var r := A.CopyChunk(A.Walk(old(fs.disk.files), cp0, l0), out.path, old(out.offset), n, PathsOf(pieces), pieceLength);
            && ok == r.Some?
            && (ok ==> A.Walk(fs.disk.files, cp, l) == r.value && Handles(pieces, cp, pieceLength - l))
    ensures ok ==> out.offset == old(out.offset) + n && fs.disk.files.Keys == old(fs.disk.files.Keys)
  {
    hide D.CopyN;
    cp, l := cp0, l0;
    if cp >= |pieces| {
      return false, cp, l;
    }
    assert PathsOf(pieces)[cp] == pieces[cp].path;
    D.CopyNKeeps(fs.disk.files, pieces[cp].path, pieceLength - l, out.path, out.offset, n);
    var w := CopyN(fs, pieces[cp], out, n);
    if w < n {
      return false, cp, l;
    }
    l := l - w;
    if l == 0 {
      cp := cp + 1;
      l := pieceLength;
    }
    return true, cp, l;
  }

  /** The inner loop of a multi-file torrent. */
  method CopyFile(fs: FileSystem, out: OpenFile, length: int, pieces: seq<OpenFile>, pieceLength: int, cp0: nat, l0: int)
      returns (complete: bool, cp: nat, l: int)
    requires Distinct(pieces) && out !in pieces && out.offset == 0
    requires out.path in fs.disk.files && A.Open(fs.disk.files, PathsOf(pieces))
    requires 0 < l0 <= pieceLength && Handles(pieces, cp0, pieceLength - l0)
    modifies fs, out, pieces
    ensures fs.disk.dirs == old(fs.disk.dirs)
    ensures var r := A.CopyFile(A.Walk(old(fs.disk.files), cp0, l0), out.path, 0, length, PathsOf(pieces), pieceLength);
            && complete == r.Some?
            && (complete ==> A.Walk(fs.disk.files, cp, l) == r.value && Handles(pieces, cp, pieceLength - l))
    ensures complete ==> fs.disk.files.Keys == old(fs.disk.files.Keys)
  {
    hide A.CopyFile, A.CopyChunk, Handles;
    ghost var paths, start := PathsOf(pieces), A.Walk(fs.disk.files, cp0, l0);
    var c := 0;
    cp, l := cp0, l0;
    while c < length
      invariant 0 <= c && out.offset == c && 0 < l <= pieceLength && Handles(pieces, cp, pieceLength - l)
      invariant fs.disk.files.Keys == start.files.Keys && fs.disk.dirs == old(fs.disk.dirs)
      invariant A.CopyFile(start, out.path, 0, length, paths, pieceLength)
             == A.CopyFile(A.Walk(fs.disk.files, cp, l), out.path, c, length, paths, pieceLength)
      decreases length - c
    {
      var n := Min(l, length - c);
      A.CopyFileUnfolds(A.Walk(fs.disk.files, cp, l), out.path, c, length, paths, pieceLength);
      var ok;
      ok, cp, l := CopyChunk(fs, out, n, pieces, pieceLength, cp, l);
      if !ok {
        return false, cp, l;
      }
      c := c + n;
    }
    A.CopyFileUnfolds(A.Walk(fs.disk.files, cp, l), out.path, c, length, paths, pieceLength);
    return true, cp, l;
  }

  /** Both loops of a multi-file torrent. */
  method CopyFiles(fs: FileSystem, files: seq<OpenFile>, lengths: seq<int>, pieces: seq<OpenFile>, pieceLength: int)
      returns (complete: bool, tc: int)
    requires |files| == |lengths| && Distinct(files) && Distinct(pieces) && 0 < pieceLength
    requires forall k :: 0 <= k < |files| ==> files[k] !in pieces && files[k].offset == 0
    requires forall k :: 0 <= k < |pieces| ==> pieces[k].offset == 0
    requires A.Open(fs.disk.files, PathsOf(files)) && A.Open(fs.disk.files, PathsOf(pieces))
    modifies fs, files, pieces
    ensures fs.disk.dirs == old(fs.disk.dirs)
    ensures var r := A.CopyFiles(old(fs.disk.files), PathsOf(files), lengths, PathsOf(pieces), pieceLength, |files|);
            complete == r.Some? && (complete ==> fs.disk.files == r.value.files && tc == Sum(lengths))
  {
    hide A.CopyFile, Sum;
    ghost var outs, paths, before := PathsOf(files), PathsOf(pieces), fs.disk.files;
    tc := 0;
    var cp, l := 0, pieceLength;
    A.NoOffset(lengths);
    for i := 0 to |files|
      invariant tc == A.Offset(lengths, i) && 0 < l <= pieceLength && Handles(pieces, cp, pieceLength - l)
      invariant forall k :: i <= k < |files| ==> files[k].offset == 0
      invariant fs.disk.dirs == old(fs.disk.dirs) && fs.disk.files.Keys == before.Keys
      invariant A.CopyFiles(before, outs, lengths, paths, pieceLength, i) == Some(A.Walk(fs.disk.files, cp, l))
    {
      var ok;
      assert A.CopyFiles(before, outs, lengths, paths, pieceLength, i + 1)
          == A.CopyFile(A.Walk(fs.disk.files, cp, l), outs[i], 0, lengths[i], paths, pieceLength);
      ok, cp, l := CopyFile(fs, files[i], lengths[i], pieces, pieceLength, cp, l);
      if !ok {
        StaysStuck(before, outs, lengths, paths, pieceLength, i + 1);
        return false, tc;
      }
      A.OffsetStep(lengths, i);
      tc := tc + lengths[i];
    }
    return true, tc;
  }

  lemma {:induction false} StaysStuck(files: map<Path, Bytes>, outs: seq<Path>, lengths: seq<int>, pieces: seq<Path>,
                                      pieceLength: int, j: nat)
    requires j <= |outs| == |lengths| && A.Open(files, outs) && A.Open(files, pieces) && 0 < pieceLength
    requires A.CopyFiles(files, outs, lengths, pieces, pieceLength, j) == None
    ensures A.CopyFiles(files, outs, lengths, pieces, pieceLength, |outs|) == None
    decreases |outs| - j
  {
    if j < |outs| {
      StaysStuck(files, outs, lengths, pieces, pieceLength, j + 1);
    }
  }

  /** Makes the directories and files of a multi-file torrent; goes on after a failure. */
  method CreateFiles(fs: FileSystem, parent: Path, paths: seq<seq<Bytes>>) returns (ok: bool, files: seq<OpenFile>)
    modifies fs
    ensures (fs.disk, ok) == A.CreateAll(old(fs.disk), parent, paths, |paths|)
    ensures Distinct(files) && forall k :: 0 <= k < |files| ==> fresh(files[k]) && files[k].offset == 0
    ensures ok ==> PathsOf(files) == A.Outputs(parent, paths)
  {
    ghost var before := fs.disk;
    ok, files := true, [];
    for i := 0 to |paths|
      invariant (fs.disk, ok) == A.CreateAll(before, parent, paths, i)
      invariant Distinct(files) && forall k :: 0 <= k < |files| ==> fresh(files[k]) && files[k].offset == 0
      invariant ok ==> |files| == i && forall k :: 0 <= k < i ==> files[k].path == Join(parent, paths[k])
    {
      hide D.MkdirAll, D.Create;
      if |paths[i]| > 1 {
        var made := D.MkdirAll(fs.disk, Join(parent, paths[i][..|paths[i]| - 1]));
        fs.disk := made.0;
        if !made.1 {
          ok := false;
          continue;
        }
      }
      var created := D.Create(fs.disk, Join(parent, paths[i]));
      if created.None? {
        ok := false;
        continue;
      }
      fs.disk := created.value;
      var f := new OpenFile(Join(parent, paths[i]));
      files := files + [f];
    }
  }

  /** Opens files for reading from their start. */
  method OpenAll(paths: seq<Path>) returns (files: seq<OpenFile>)
    ensures PathsOf(files) == paths && Distinct(files) && forall k :: 0 <= k < |files| ==> fresh(files[k]) && files[k].offset == 0
  {
    files := [];
    for i := 0 to |paths|
      invariant |files| == i && forall k :: 0 <= k < i ==> files[k].path == paths[k]
      invariant Distinct(files) && forall k :: 0 <= k < |files| ==> fresh(files[k]) && files[k].offset == 0
    {
      var f := new OpenFile(paths[i]);
      files := files + [f];
    }
  }

  datatype Ending = NotCreated | Stuck | Assembled

  /**
    What waiting for a multi-file torrent does once the download is complete. The final
    comparison of `tc` with the torrent's size cannot fail: both add up the file lengths.
   */
  method AssembleFiles(fs: FileSystem, parent: Path, entries: seq<A.FileEntry>, pieces: seq<Path>, pieceLength: int)
      returns (r: Ending, tc: int)
    requires 0 < pieceLength
    modifies fs
    ensures r == Assembled ==> tc == Sum(A.LengthsOf(entries))
    ensures match A.AssembleFiles(old(fs.disk), parent, entries, pieces, pieceLength)
            case NotCreated(d) => r == NotCreated && fs.disk == d
            case Stuck => r == Stuck
            case Assembled(d) => r == Assembled && fs.disk == d
  {
    hide A.CreateAll, A.CopyFiles, D.Mkdir;
    ghost var before := fs.disk;
    if !D.Exists(fs.disk, parent) {
      var made := D.Mkdir(fs.disk, parent);
      if made.None? {
        return NotCreated, 0;
      }
      fs.disk := made.value;
    }
    var ok, files := CreateFiles(fs, parent, A.PathsOf(entries));
    assert (fs.disk, ok) == A.Prepare(before, parent, A.PathsOf(entries));
    if !ok || !A.Open(fs.disk.files, pieces) || !A.Open(fs.disk.files, A.Outputs(parent, A.PathsOf(entries))) {
      return NotCreated, 0;
    }
    var handles := OpenAll(pieces);
    var complete;
    complete, tc := CopyFiles(fs, files, A.LengthsOf(entries), handles, pieceLength);
    return if complete then Assembled else Stuck, tc;
  }

  /** What waiting for a single-file torrent does once the download is complete. */
  method AssembleSingle(fs: FileSystem, path: Path, pieces: seq<Path>, total: int) returns (r: S.Result)
    modifies fs
    ensures r == S.AssembleSingle(old(fs.disk), path, pieces, total)
    ensures r.Complete? ==> fs.disk == r.disk
  {
    hide D.Create, D.CopyN;
    var created := D.Create(fs.disk, path);
    if created.None? {
      return S.Refused;
    }
    fs.disk := created.value;
    if !A.Open(fs.disk.files, pieces) || path !in fs.disk.files {
      Created(old(fs.disk), path);
      return S.Refused;
    }
    ghost var before := fs.disk.files;
    var out := new OpenFile(path);
    var copied := 0;
    for k := 0 to |pieces|
      invariant fresh(out) && out.offset == copied && fs.disk.dirs == created.value.dirs
      invariant fs.disk.files.Keys == before.Keys
      invariant S.JoinPieces(before, path, pieces, k) == Some((fs.disk.files, copied))
    {
      var f := new OpenFile(pieces[k]);
      if f.path == path {
        if fs.disk.files[path] != [] {
          S.StaysStuck(before, path, pieces, k + 1, |pieces|);
          return S.Endless;
        }
      } else {
        D.CopyNKeeps(fs.disk.files, f.path, 0, path, copied, |fs.disk.files[f.path]|);
        var w := CopyN(fs, f, out, |fs.disk.files[f.path]|);
        copied := copied + w;
      }
    }
    return if copied == total then S.Complete(fs.disk) else S.Short(copied);
  }

  lemma Created(d: D.Disk, path: Path)
    requires D.Create(d, path).Some?
    ensures path in D.Create(d, path).value.files
  {
  }
}
