/**
  Cutting the verified pieces back into the files of the torrent. All files are in one directory
  tree, so that an output may turn out to be a piece file, or another output.
 */
module Assembly {
  import opened Base
  import opened Torrent
  import opened Paths
  import opened Disk

  // ---------- Pieces and offsets ----------

  /** All pieces are full except the last, which is neither empty nor longer. */
  predicate Full(pieces: seq<Bytes>, pieceLength: int) {
    && 0 < pieceLength
    && (forall k :: 0 <= k < |pieces| - 1 ==> |pieces[k]| == pieceLength)
    && (|pieces| > 0 ==> 0 < |pieces[|pieces| - 1]| <= pieceLength)
  }

  /** Where file `k` starts in the torrent. */
  function Offset(lengths: seq<int>, k: nat): int
    requires k <= |lengths|
  {
    Sum(lengths[..k])
  }

  lemma OffsetStep(lengths: seq<int>, k: nat)
    requires k < |lengths|
    ensures Offset(lengths, k + 1) == Offset(lengths, k) + lengths[k]
  {
    assert lengths[..k + 1][..k] == lengths[..k];
  }

  lemma {:induction false} OffsetBounds(lengths: seq<int>, k: nat)
    requires k <= |lengths| && forall i :: 0 <= i < |lengths| ==> 0 <= lengths[i]
    ensures 0 <= Offset(lengths, k) <= Sum(lengths)
    decreases |lengths| - k
  {
    SumNonNegative(lengths[..k]);
    SumNonNegative(lengths[k..]);
    SumSplit(lengths[..k], lengths[k..]);
    assert lengths == lengths[..k] + lengths[k..];
  }

  /** The bytes of piece `k` begin at `k` times the piece length. */
  lemma {:induction false} PiecePosition(pieces: seq<Bytes>, l: int, k: nat)
    requires Full(pieces, l) && k < |pieces|
    ensures 0 <= k * l && k * l + |pieces[k]| <= |Concat(pieces)|
    ensures Concat(pieces)[k * l..k * l + |pieces[k]|] == pieces[k]
    ensures k == |pieces| - 1 ==> k * l + |pieces[k]| == |Concat(pieces)|
  {
    var last := |pieces| - 1;
    PrefixLength(pieces[..last], l);
    if k < last {
      PiecePosition(pieces[..last], l, k);
      assert pieces[..last][k] == pieces[k];
    }
  }

  lemma {:induction false} PrefixLength(pieces: seq<Bytes>, l: int)
    requires 0 < l && forall k :: 0 <= k < |pieces| ==> |pieces[k]| == l
    ensures |Concat(pieces)| == |pieces| * l
  {
    if |pieces| > 0 {
      PrefixLength(pieces[..|pieces| - 1], l);
      assert (|pieces| - 1) * l + l == |pieces| * l;
    }
  }

  /** A chunk inside one piece is the chunk of the torrent at the same place. */
  lemma ChunkOfTorrent(pieces: seq<Bytes>, l: int, k: nat, p: nat, n: nat)
    requires Full(pieces, l) && k < |pieces| && p + n <= |pieces[k]|
    ensures 0 <= k * l + p && k * l + p + n <= |Concat(pieces)|
    ensures pieces[k][p..p + n] == Concat(pieces)[k * l + p..k * l + p + n]
  {
    PiecePosition(pieces, l, k);
    var all := Concat(pieces);
    assert all[k * l..k * l + |pieces[k]|][p..p + n] == all[k * l + p..k * l + p + n];
  }

  /** Byte `t` of the torrent is the next one to read, with `l` bytes of piece `cp` left. */
  ghost predicate At(cp: int, l: int, pieceLength: int, t: int) {
    0 <= cp && 0 < l <= pieceLength && t == cp * pieceLength + (pieceLength - l)
  }

  lemma Advance(cp: int, l: int, pieceLength: int, t: int, w: int)
    requires At(cp, l, pieceLength, t) && 0 <= w <= l
    ensures if l == w then At(cp + 1, pieceLength, pieceLength, t + w) else At(cp, l - w, pieceLength, t + w)
  {
    assert (cp + 1) * pieceLength == cp * pieceLength + pieceLength;
  }

  lemma Grow(all: Bytes, a: int, b: int, c: int)
    requires 0 <= a <= b <= c <= |all|
    ensures all[a..b] + all[b..c] == all[a..c]
  {
  }

  /** How many bytes the copy loop asks for a file; none for a negative length. */
  function Amount(length: int): nat {
    if length > 0 then length else 0
  }

  function Wanted(lengths: seq<int>): seq<int> {
    seq(|lengths|, k requires 0 <= k < |lengths| => Amount(lengths[k]))
  }

  /** More is wanted than the lengths add up to exactly if one of them is negative. */
  lemma WantedExact(lengths: seq<int>)
    ensures Sum(lengths) <= Sum(Wanted(lengths))
    ensures Sum(lengths) == Sum(Wanted(lengths)) <==> forall k :: 0 <= k < |lengths| ==> 0 <= lengths[k]
  {
    SumDominated(lengths, Wanted(lengths));
    if Sum(lengths) == Sum(Wanted(lengths)) {
      forall k | 0 <= k < |lengths|
        ensures 0 <= lengths[k]
      {
        assert lengths[k] == Wanted(lengths)[k];
      }
    } else {
      var k :| 0 <= k < |lengths| && lengths[k] != Wanted(lengths)[k];
      assert lengths[k] < 0;
    }
  }

  /** While bytes are missing there is a current piece, and it holds the next chunk. */
  lemma InRange(pieces: seq<Bytes>, l: int, cp: nat, position: int, n: int, at: int, total: int)
    requires Full(pieces, l) && 0 <= position < l && at == cp * l + position
    requires total == |Concat(pieces)| && 0 < n <= l - position && at + n <= total
    ensures cp < |pieces| && position + n <= |pieces[cp]|
  {
    if |pieces| > 0 {
      var last := |pieces| - 1;
      PiecePosition(pieces, l, last);
      if cp > last {
        MulLess(last, cp, l);
      }
    }
  }

  /**
    The next chunk can be read in full from the current piece exactly if the torrent has that
    many bytes left, and it continues what was copied from the torrent since `from`.
   */
  lemma NextChunk(pieces: seq<Bytes>, pieceLength: int, cp: int, l: int, n: int, from: int, t: int)
    requires Full(pieces, pieceLength) && At(cp, l, pieceLength, t)
    requires 0 < n <= l && 0 <= from <= t <= |Concat(pieces)|
    ensures t + n <= |Concat(pieces)| <==> cp < |pieces| && pieceLength - l + n <= |pieces[cp]|
    ensures cp < |pieces| ==> pieceLength - l <= |pieces[cp]|
    ensures t + n <= |Concat(pieces)| ==>
              Concat(pieces)[from..t] + pieces[cp][pieceLength - l..pieceLength - l + n] == Concat(pieces)[from..t + n]
  {
    hide Full, Concat;
    if t + n <= |Concat(pieces)| {
      InRange(pieces, pieceLength, cp, pieceLength - l, n, t, |Concat(pieces)|);
      ChunkOfTorrent(pieces, pieceLength, cp, pieceLength - l, n);
      Grow(Concat(pieces), from, t, t + n);
    } else if cp < |pieces| {
      StillInside(pieces, pieceLength, cp, pieceLength - l, t);
      if pieceLength - l + n <= |pieces[cp]| {
        ChunkOfTorrent(pieces, pieceLength, cp, pieceLength - l, n);
      }
    }
  }

  lemma StillInside(pieces: seq<Bytes>, l: int, cp: nat, position: int, at: int)
    requires Full(pieces, l) && cp < |pieces| && 0 <= position < l && at == cp * l + position <= |Concat(pieces)|
    ensures position <= |pieces[cp]|
  {
    PiecePosition(pieces, l, cp);
  }

  // ---------- Making the output files ----------

  datatype FileEntry = FileEntry(path: seq<Bytes>, length: int)

  function PathsOf(entries: seq<FileEntry>): seq<seq<Bytes>> {
    seq(|entries|, k requires 0 <= k < |entries| => entries[k].path)
  }

  function LengthsOf(entries: seq<FileEntry>): seq<int> {
    seq(|entries|, k requires 0 <= k < |entries| => entries[k].length)
  }

  function Outputs(parent: Path, paths: seq<seq<Bytes>>): seq<Path> {
    seq(|paths|, k requires 0 <= k < |paths| => Join(parent, paths[k]))
  }

  /** Makes the directories above one file, if its path has any, and creates it. */
  function CreateOne(d: Disk, parent: Path, path: seq<Bytes>): (Disk, bool) {
    var (e, ok) := if |path| > 1 then MkdirAll(d, Join(parent, path[..|path| - 1])) else (d, true);
    if !ok then (e, false)
    else
      match Create(e, Join(parent, path))
      case None => (e, false)
      case Some(f) => (f, true)
  }

  /** The first `k` files; the loop goes on after a failure. */
  function CreateAll(d: Disk, parent: Path, paths: seq<seq<Bytes>>, k: nat): (Disk, bool)
    requires k <= |paths|
  {
    if k == 0 then (d, true)
    else
      var (e, ok) := CreateAll(d, parent, paths, k - 1);
      var (f, created) := CreateOne(e, parent, paths[k - 1]);
      (f, ok && created)
  }

  /** The torrent's directory and its output files. */
  function Prepare(d: Disk, parent: Path, paths: seq<seq<Bytes>>): (Disk, bool) {
    match (if Exists(d, parent) then Some(d) else Mkdir(d, parent))
    case None => (d, false)
    case Some(e) => CreateAll(e, parent, paths, |paths|)
  }

  lemma {:induction false} MkdirAllKeeps(d: Disk, p: Path)
    ensures MkdirAll(d, p).0.files == d.files
    decreases |p|
  {
    if p !in d.dirs && p != [] {
      MkdirAllKeeps(d, Parent(p));
    }
  }

  lemma CreateOneTruncates(d: Disk, parent: Path, path: seq<Bytes>)
    ensures var (e, ok) := CreateOne(d, parent, path);
            e.files == if ok then d.files[Join(parent, path) := []] else d.files
  {
    if |path| > 1 {
      MkdirAllKeeps(d, Join(parent, path[..|path| - 1]));
    }
  }

  /** Once all outputs were created they are empty, and no other file has changed. */
  lemma {:induction false} CreateAllTruncates(d: Disk, parent: Path, paths: seq<seq<Bytes>>, k: nat, p: Path)
    requires k <= |paths| && CreateAll(d, parent, paths, k).1
    ensures var (e, _) := CreateAll(d, parent, paths, k);
            if p in Outputs(parent, paths)[..k] then p in e.files && e.files[p] == []
            else (p in e.files <==> p in d.files) && (p in d.files ==> e.files[p] == d.files[p])
  {
    if k > 0 {
      CreateAllTruncates(d, parent, paths, k - 1, p);
      CreateOneTruncates(CreateAll(d, parent, paths, k - 1).0, parent, paths[k - 1]);
      var outs := Outputs(parent, paths);
      assert outs[..k] == outs[..k - 1] + [outs[k - 1]];
    }
  }

  lemma PrepareTruncates(d: Disk, parent: Path, paths: seq<seq<Bytes>>, p: Path)
    requires Prepare(d, parent, paths).1
    ensures var (e, _) := Prepare(d, parent, paths);
            if p in Outputs(parent, paths) then p in e.files && e.files[p] == []
            else (p in e.files <==> p in d.files) && (p in d.files ==> e.files[p] == d.files[p])
  {
    var e := if Exists(d, parent) then d else Mkdir(d, parent).value;
    CreateAllTruncates(e, parent, paths, |paths|, p);
    assert Outputs(parent, paths)[..|paths|] == Outputs(parent, paths);
  }

  // ---------- When the outputs can be created ----------

  /** No output is a directory, and none is below a file or below another output. */
  ghost predicate Creatable(d: Disk, outs: seq<Path>, k: nat)
    requires k <= |outs|
  {
    forall i :: 0 <= i < k ==>
      && outs[i] !in d.dirs
      && forall m :: 0 <= m < |outs[i]| ==> outs[i][..m] !in d.files && outs[i][..m] !in outs[..k]
  }

  /** `q` is a directory above one of the first `k` outputs. */
  ghost predicate AboveOutput(outs: seq<Path>, k: nat, q: Path)
    requires k <= |outs|
  {
    exists i, m :: 0 <= i < k && 0 <= m < |outs[i]| && q == outs[i][..m]
  }

  /** The last component of a cleaned path names the file. */
  predicate EndsPlain(path: seq<Bytes>) {
    path != [] && Plain(path[|path| - 1])
  }

  lemma JoinEnds(parent: Path, path: seq<Bytes>)
    requires EndsPlain(path)
    ensures var out := Join(parent, path);
            out != [] && out[..|out| - 1] == Parent(out) == Join(parent, path[..|path| - 1])
    ensures |path| == 1 ==> Parent(Join(parent, path)) == parent
  {
    var init, last := path[..|path| - 1], path[|path| - 1];
    assert path == init + [last];
    JoinSplit(parent, init, [last]);
    JoinPlain(Join(parent, init), [last]);
    if |path| == 1 {
      assert init == [];
    }
  }

  /**
    One file is created exactly if no file is on the way to it and it is no directory itself. Its
    directories are made then, and no others.
   */
  lemma CreateOneExact(d: Disk, parent: Path, path: seq<Bytes>)
    requires Tree(d) && parent in d.dirs && EndsPlain(path)
    ensures var (e, ok) := CreateOne(d, parent, path);
            var out := Join(parent, path);
            && (ok <==> out !in d.dirs && forall m :: 0 <= m < |out| ==> out[..m] !in d.files)
            && (ok ==>
                  && Tree(e) && e.files == d.files[out := []]
                  && forall q :: q in e.dirs <==> q in d.dirs || exists m :: 0 <= m < |out| && q == out[..m])
  {
    hide MkdirAll, Join;
    var out := Join(parent, path);
    JoinEnds(parent, path);
    var up := Parent(out);
    assert forall m :: 0 <= m <= |up| ==> up[..m] == out[..m];
    assert |up| == |out| - 1;
    MkdirAllExact(d, up);
    if |path| == 1 {
      forall m | 0 <= m <= |up|
        ensures up[..m] in d.dirs
      {
        Above(d, up, m);
      }
    }
    CreateKeepsTree(if |path| > 1 then MkdirAll(d, up).0 else d, out);
  }

  lemma CreateKeepsTree(d: Disk, out: Path)
    requires Tree(d)
    ensures Create(d, out).Some? <==> out != [] && out !in d.dirs && Parent(out) in d.dirs
    ensures Create(d, out).Some? ==>
              Tree(Create(d, out).value) && Create(d, out).value == d.(files := d.files[out := []])
  {
  }

  lemma {:induction false} CreateAllExact(d: Disk, parent: Path, paths: seq<seq<Bytes>>, k: nat)
    requires k <= |paths| && Tree(d) && parent in d.dirs && forall i :: 0 <= i < |paths| ==> EndsPlain(paths[i])
    ensures var (e, ok) := CreateAll(d, parent, paths, k);
            var outs := Outputs(parent, paths);
            && (ok <==> Creatable(d, outs, k))
            && (ok ==>
                  && Tree(e) && parent in e.dirs
                  && (forall q :: q in e.files <==> q in d.files || q in outs[..k])
                  && (forall q :: q in e.dirs <==> q in d.dirs || AboveOutput(outs, k, q)))
  {
    if k > 0 {
      hide CreateOne, Tree, Join;
      CreateAllExact(d, parent, paths, k - 1);
      var outs := Outputs(parent, paths);
      var e := CreateAll(d, parent, paths, k - 1).0;
      CreatableLess(d, outs, k - 1);
      if CreateAll(d, parent, paths, k - 1).1 {
        CreateOneExact(e, parent, paths[k - 1]);
        CreatableNext(d, e, outs, k - 1);
        if CreateOne(e, parent, paths[k - 1]).1 {
          AboveNext(d, e, CreateOne(e, parent, paths[k - 1]).0, outs, k - 1);
        }
      }
    }
  }

  lemma CreatableLess(d: Disk, outs: seq<Path>, k: nat)
    requires k < |outs|
    ensures Creatable(d, outs, k + 1) ==> Creatable(d, outs, k)
    ensures outs[..k + 1] == outs[..k] + [outs[k]]
  {
  }

  lemma CreatableNext(d: Disk, e: Disk, outs: seq<Path>, k: nat)
    requires k < |outs| && Creatable(d, outs, k)
    requires forall q :: q in e.files <==> q in d.files || q in outs[..k]
    requires forall q :: q in e.dirs <==> q in d.dirs || AboveOutput(outs, k, q)
    ensures (outs[k] !in e.dirs && forall m :: 0 <= m < |outs[k]| ==> outs[k][..m] !in e.files)
            <==> Creatable(d, outs, k + 1)
  {
    CreatableLess(d, outs, k);
    if !Creatable(d, outs, k + 1) {
      var i :| 0 <= i < k + 1 && !(outs[i] !in d.dirs
        && forall m :: 0 <= m < |outs[i]| ==> outs[i][..m] !in d.files && outs[i][..m] !in outs[..k + 1]);
      if i < k {
        var m :| 0 <= m < |outs[i]| && outs[i][..m] in outs[..k + 1];
        assert outs[i][..m] == outs[k];
        assert AboveOutput(outs, k, outs[k]);
      } else if outs[k] !in d.dirs {
        var m :| 0 <= m < |outs[k]| && (outs[k][..m] in d.files || outs[k][..m] in outs[..k + 1]);
        assert |outs[k][..m]| == m;
      }
    }
    if AboveOutput(outs, k, outs[k]) {
      var i, m :| 0 <= i < k && 0 <= m < |outs[i]| && outs[k] == outs[i][..m];
      assert outs[i][..m] in outs[..k + 1];
      assert !Creatable(d, outs, k + 1);
    }
  }

  lemma AboveNext(d: Disk, e: Disk, f: Disk, outs: seq<Path>, k: nat)
    requires k < |outs|
    requires forall q :: q in e.dirs <==> q in d.dirs || AboveOutput(outs, k, q)
    requires forall q :: q in f.dirs <==> q in e.dirs || exists m :: 0 <= m < |outs[k]| && q == outs[k][..m]
    ensures forall q :: q in f.dirs <==> q in d.dirs || AboveOutput(outs, k + 1, q)
  {
    forall q
      ensures AboveOutput(outs, k + 1, q) <==> AboveOutput(outs, k, q) || exists m :: 0 <= m < |outs[k]| && q == outs[k][..m]
    {
      if AboveOutput(outs, k, q) {
        var i, m :| 0 <= i < k && 0 <= m < |outs[i]| && q == outs[i][..m];
        assert 0 <= i < k + 1;
      }
    }
  }

  /**
    All outputs can be created if and only if, in the tree with the torrent's own directory, none
    is a directory and none lies below a file or below another output. Just the directories above
    them are made.
   */
  lemma PrepareExact(d: Disk, parent: Path, paths: seq<seq<Bytes>>)
    requires Tree(d) && forall i :: 0 <= i < |paths| ==> EndsPlain(paths[i])
    requires parent in d.dirs || Mkdir(d, parent).Some?
    ensures var (e, ok) := Prepare(d, parent, paths);
            var outs, own := Outputs(parent, paths), d.(dirs := d.dirs + {parent});
            && (ok <==> Creatable(own, outs, |outs|))
            && (ok ==> Tree(e) && forall q :: q in e.dirs <==> q in own.dirs || AboveOutput(outs, |outs|, q))
  {
    var own := d.(dirs := d.dirs + {parent});
    if parent in d.dirs {
      assert own == d;
    } else {
      MkdirExact(d, parent);
    }
    CreateAllExact(own, parent, paths, |paths|);
  }

  lemma MkdirExact(d: Disk, p: Path)
    requires Tree(d)
    ensures Mkdir(d, p).Some? <==> p != [] && p !in d.files && p !in d.dirs && Parent(p) in d.dirs
    ensures Mkdir(d, p).Some? ==> Mkdir(d, p).value == d.(dirs := d.dirs + {p}) && Tree(Mkdir(d, p).value)
  {
  }

  /** Paths of plain names put the outputs below the torrent's directory, component by component. */
  lemma OutputsExact(parent: Path, paths: seq<seq<Bytes>>, k: nat)
    requires k < |paths| && AllPlain(paths[k])
    ensures Outputs(parent, paths)[k] == parent + paths[k]
  {
    JoinPlain(parent, paths[k]);
  }

  // ---------- Copying ----------

  /** The files, the piece being read, and how many bytes of a full piece would be left in it. */
  datatype Walk = Walk(files: map<Path, Bytes>, cp: nat, left: int)

  predicate Open(files: map<Path, Bytes>, paths: seq<Path>) {
    forall k :: 0 <= k < |paths| ==> paths[k] in files
  }

  /** One call of `io.CopyN` that is to copy `n` bytes. */
  function CopyChunk(w: Walk, out: Path, c: nat, n: nat, pieces: seq<Path>, pieceLength: int): (r: Option<Walk>)
    requires out in w.files && Open(w.files, pieces) && 0 < n <= w.left <= pieceLength
    ensures r.Some? ==> r.value.files.Keys == w.files.Keys && 0 < r.value.left <= pieceLength
  {
    if w.cp >= |pieces| then None
    else
      CopyNKeeps(w.files, pieces[w.cp], pieceLength - w.left, out, c, n);
      var (files, copied) := CopyN(w.files, pieces[w.cp], pieceLength - w.left, out, c, n);
      if copied < n then None
      else Some(if w.left == n then Walk(files, w.cp + 1, pieceLength) else Walk(files, w.cp, w.left - n))
  }

  /**
    The inner loop, with `c` bytes of the file copied. `None` where the source indexes past the
    last piece, or repeats for ever a copy that meets the end of its piece.
   */
  function CopyFile(w: Walk, out: Path, c: nat, length: int, pieces: seq<Path>, pieceLength: int): (r: Option<Walk>)
    requires out in w.files && Open(w.files, pieces) && 0 < w.left <= pieceLength
    ensures r.Some? ==> r.value.files.Keys == w.files.Keys && 0 < r.value.left <= pieceLength
    decreases length - c
  {
    if c >= length then Some(w)
    else
      var n := Min(w.left, length - c);
      match CopyChunk(w, out, c, n, pieces, pieceLength)
      case None => None
      case Some(v) => CopyFile(v, out, c + n, length, pieces, pieceLength)
  }

  /** The first `k` files, one after the other. */
  function CopyFiles(files: map<Path, Bytes>, outs: seq<Path>, lengths: seq<int>, pieces: seq<Path>, pieceLength: int, k: nat): (r: Option<Walk>)
    requires k <= |outs| == |lengths| && Open(files, outs) && Open(files, pieces) && 0 < pieceLength
    ensures r.Some? ==> r.value.files.Keys == files.Keys && 0 < r.value.left <= pieceLength
  {
    if k == 0 then Some(Walk(files, 0, pieceLength))
    else
      match CopyFiles(files, outs, lengths, pieces, pieceLength, k - 1)
      case None => None
      case Some(w) => CopyFile(w, outs[k - 1], 0, lengths[k - 1], pieces, pieceLength)
  }

  /** The bytes of the torrent that belong to file `k`. */
  function Range(lengths: seq<int>, all: Bytes, k: nat): Bytes
    requires k < |lengths|
  {
    var from := Offset(Wanted(lengths), k);
    if 0 <= from && from + Amount(lengths[k]) <= |all| then all[from..from + Amount(lengths[k])] else []
  }

  /** The files after the first `k` outputs were written from their start. */
  function Overwritten(files: map<Path, Bytes>, outs: seq<Path>, lengths: seq<int>, all: Bytes, k: nat): (r: map<Path, Bytes>)
    requires k <= |outs| == |lengths| && Open(files, outs)
    ensures r.Keys == files.Keys
  {
    if k == 0 then files
    else
      var before, part := Overwritten(files, outs, lengths, all, k - 1), Range(lengths, all, k - 1);
      before[outs[k - 1] := part + Tail(before[outs[k - 1]], |part|)]
  }

  /** The contents of the piece files. */
  ghost predicate Holds(files: map<Path, Bytes>, pieces: seq<Path>, contents: seq<Bytes>) {
    && |pieces| == |contents|
    && forall k :: 0 <= k < |pieces| ==> pieces[k] in files && files[pieces[k]] == contents[k]
  }

  /** Apart from the pieces, `out` holds what was copied since byte `t`, and its old bytes behind. */
  ghost predicate Copying(w: Walk, out: Path, pieces: seq<Path>, pieceLength: int, contents: seq<Bytes>,
                          files: map<Path, Bytes>, t: int, c: nat)
    requires out in files
  {
    && At(w.cp, w.left, pieceLength, t + c) && 0 <= t && t + c <= |Concat(contents)|
    && w.files == files[out := Concat(contents)[t..t + c] + Tail(files[out], c)]
  }

  lemma CopyChunkExact(w: Walk, out: Path, c: nat, n: nat, pieces: seq<Path>, pieceLength: int, contents: seq<Bytes>,
                       files: map<Path, Bytes>, t: int)
    requires Holds(files, pieces, contents) && out in files && out !in pieces && Full(contents, pieceLength)
    requires Copying(w, out, pieces, pieceLength, contents, files, t, c) && 0 < n <= w.left <= pieceLength
    ensures out in w.files && Open(w.files, pieces)
    ensures var r := CopyChunk(w, out, c, n, pieces, pieceLength);
            && (r.Some? <==> t + c + n <= |Concat(contents)|)
            && (r.Some? ==> Copying(r.value, out, pieces, pieceLength, contents, files, t, c + n))
  {
    hide Full, Concat, Tail, CopyN, At;
    var all := Concat(contents);
    NextChunk(contents, pieceLength, w.cp, w.left, n, t, t + c);
    if w.cp < |pieces| {
      CopyNExact(w.files, pieces[w.cp], pieceLength - w.left, out, all[t..t + c], files[out], n);
      Advance(w.cp, w.left, pieceLength, t + c, n);
    }
  }

  /**
    If the output is not a piece file, the inner loop completes exactly if the torrent has that
    many bytes left, and it writes them over the start of the output.
   */
  lemma {:induction false} CopyFileExact(w: Walk, out: Path, c: nat, length: int, pieces: seq<Path>, pieceLength: int,
                                         contents: seq<Bytes>, files: map<Path, Bytes>, t: int)
    requires Holds(files, pieces, contents) && out in files && out !in pieces && Full(contents, pieceLength)
    requires Copying(w, out, pieces, pieceLength, contents, files, t, c) && c <= Amount(length)
    ensures out in w.files && Open(w.files, pieces) && 0 < w.left <= pieceLength
    ensures var r := CopyFile(w, out, c, length, pieces, pieceLength);
            && (r.Some? <==> t + Amount(length) <= |Concat(contents)|)
            && (r.Some? ==> Copying(r.value, out, pieces, pieceLength, contents, files, t, Amount(length)))
    decreases length - c
  {
    hide Full, Concat, Copying, CopyChunk, CopyFile, Holds, Open, At;
    CopyingOpen(w, out, c, pieces, pieceLength, contents, files, t);
    CopyFileUnfolds(w, out, c, length, pieces, pieceLength);
    if c < length {
      var n := Min(w.left, length - c);
      CopyChunkExact(w, out, c, n, pieces, pieceLength, contents, files, t);
      var v := CopyChunk(w, out, c, n, pieces, pieceLength);
      if v.Some? {
        CopyFileExact(v.value, out, c + n, length, pieces, pieceLength, contents, files, t);
      }
    }
  }

  lemma CopyFileUnfolds(w: Walk, out: Path, c: nat, length: int, pieces: seq<Path>, pieceLength: int)
    requires out in w.files && Open(w.files, pieces) && 0 < w.left <= pieceLength
    ensures c >= length ==> CopyFile(w, out, c, length, pieces, pieceLength) == Some(w)
    ensures c < length ==>
              var n := Min(w.left, length - c);
              var v := CopyChunk(w, out, c, n, pieces, pieceLength);
              && (v.None? ==> CopyFile(w, out, c, length, pieces, pieceLength) == None)
              && (v.Some? ==>
                    && out in v.value.files && Open(v.value.files, pieces)
                    && CopyFile(w, out, c, length, pieces, pieceLength)
                       == CopyFile(v.value, out, c + n, length, pieces, pieceLength))
  {
    hide CopyChunk;
  }

  lemma CopyingOpen(w: Walk, out: Path, c: nat, pieces: seq<Path>, pieceLength: int, contents: seq<Bytes>,
                    files: map<Path, Bytes>, t: int)
    requires Holds(files, pieces, contents) && out in files && out !in pieces
    requires Copying(w, out, pieces, pieceLength, contents, files, t, c)
    ensures out in w.files && Open(w.files, pieces) && Holds(w.files, pieces, contents) && 0 < w.left <= pieceLength
    ensures 0 <= t && t + c <= |Concat(contents)|
  {
    hide Concat;
  }

  /** The same for all files: what is missing is missing for all of them together. */
  lemma {:induction false} CopyFilesExact(files: map<Path, Bytes>, outs: seq<Path>, lengths: seq<int>, pieces: seq<Path>,
                                          pieceLength: int, contents: seq<Bytes>, k: nat)
    requires k <= |outs| == |lengths| && Open(files, outs) && forall p <- outs :: p !in pieces
    requires Holds(files, pieces, contents) && Full(contents, pieceLength)
    ensures 0 < pieceLength
    ensures var r, end := CopyFiles(files, outs, lengths, pieces, pieceLength, k), Offset(Wanted(lengths), k);
            && (r.Some? <==> end <= |Concat(contents)|)
            && (r.Some? ==>
                  && r.value.files == Overwritten(files, outs, lengths, Concat(contents), k)
                  && Holds(r.value.files, pieces, contents)
                  && At(r.value.cp, r.value.left, pieceLength, end))
  {
    assert 0 < pieceLength;
    hide Full, Concat, Tail, CopyFile, Sum, Offset;
    if k == 0 {
      NoOffset(Wanted(lengths));
    } else {
      var wanted := Wanted(lengths);
      OffsetStep(wanted, k - 1);
      OffsetBounds(wanted, k - 1);
      CopyFilesExact(files, outs, lengths, pieces, pieceLength, contents, k - 1);
      var r := CopyFiles(files, outs, lengths, pieces, pieceLength, k - 1);
      if r.Some? {
        NextFileExact(r.value, outs[k - 1], lengths, pieces, pieceLength, contents, k - 1);
      }
    }
  }

  lemma NextFileExact(w: Walk, out: Path, lengths: seq<int>, pieces: seq<Path>, pieceLength: int, contents: seq<Bytes>, k: nat)
    requires k < |lengths| && Holds(w.files, pieces, contents) && out in w.files && out !in pieces && Full(contents, pieceLength)
    requires At(w.cp, w.left, pieceLength, Offset(Wanted(lengths), k))
    requires 0 <= Offset(Wanted(lengths), k) <= |Concat(contents)|
    ensures Open(w.files, pieces) && 0 < w.left <= pieceLength
    ensures var r, t := CopyFile(w, out, 0, lengths[k], pieces, pieceLength), Offset(Wanted(lengths), k);
            var part := Range(lengths, Concat(contents), k);
            && (r.Some? <==> t + Amount(lengths[k]) <= |Concat(contents)|)
            && (r.Some? ==>
                  && r.value.files == w.files[out := part + Tail(w.files[out], |part|)]
                  && Holds(r.value.files, pieces, contents)
                  && At(r.value.cp, r.value.left, pieceLength, t + Amount(lengths[k])))
  {
    hide Full, Concat, CopyFile, Offset, At;
    var t := Offset(Wanted(lengths), k);
    assert Concat(contents)[t..t + 0] + Tail(w.files[out], 0) == w.files[out];
    assert w.files[out := w.files[out]] == w.files;
    CopyFileExact(w, out, 0, lengths[k], pieces, pieceLength, contents, w.files, t);
  }

  lemma NoOffset(lengths: seq<int>)
    ensures Offset(lengths, 0) == 0 && Offset(lengths, |lengths|) == Sum(lengths)
  {
    assert lengths[..|lengths|] == lengths;
  }

  // ---------- When every output is right ----------

  /** What path `p` holds after the first `k` outputs were written, if all their ranges agree on it. */
  lemma {:induction false} LastRange(files: map<Path, Bytes>, outs: seq<Path>, lengths: seq<int>, all: Bytes, k: nat, j: nat)
    requires j < k <= |outs| == |lengths| && Open(files, outs) && forall i :: 0 <= i < |outs| ==> files[outs[i]] == []
    requires forall i :: 0 <= i < k && outs[i] == outs[j] ==> Range(lengths, all, i) == Range(lengths, all, j)
    ensures Overwritten(files, outs, lengths, all, k)[outs[j]] == Range(lengths, all, j)
    decreases k
  {
    hide Range;
    if outs[k - 1] != outs[j] {
      LastRange(files, outs, lengths, all, k - 1, j);
    } else {
      var before, part := Overwritten(files, outs, lengths, all, k - 1), Range(lengths, all, k - 1);
      if i :| 0 <= i < k - 1 && outs[i] == outs[j] {
        LastRange(files, outs, lengths, all, k - 1, i);
      } else {
        NotWritten(files, outs, lengths, all, k - 1, outs[j]);
      }
      assert part + Tail(before[outs[j]], |part|) == part;
    }
  }

  lemma {:induction false} NotWritten(files: map<Path, Bytes>, outs: seq<Path>, lengths: seq<int>, all: Bytes, k: nat, p: Path)
    requires k <= |outs| == |lengths| && Open(files, outs) && p in files
    requires forall i :: 0 <= i < k ==> outs[i] != p
    ensures Overwritten(files, outs, lengths, all, k)[p] == files[p]
  {
    if k > 0 {
      NotWritten(files, outs, lengths, all, k - 1, p);
    }
  }

  ghost predicate EachHolds(files: map<Path, Bytes>, outs: seq<Path>, lengths: seq<int>, all: Bytes) {
    |outs| == |lengths| && forall k :: 0 <= k < |outs| ==> outs[k] in files && files[outs[k]] == Range(lengths, all, k)
  }

  /** Files with the same path are to hold the same bytes. */
  ghost predicate PathsAgree(outs: seq<Path>, lengths: seq<int>, all: Bytes) {
    |outs| == |lengths|
    && forall j, k :: 0 <= j < k < |outs| && outs[j] == outs[k] ==> Range(lengths, all, j) == Range(lengths, all, k)
  }

  /** Outputs that start empty all end up right exactly if those with the same path agree. */
  lemma EachHoldsIff(files: map<Path, Bytes>, outs: seq<Path>, lengths: seq<int>, all: Bytes)
    requires |outs| == |lengths| && Open(files, outs) && forall i :: 0 <= i < |outs| ==> files[outs[i]] == []
    ensures EachHolds(Overwritten(files, outs, lengths, all, |outs|), outs, lengths, all) <==> PathsAgree(outs, lengths, all)
  {
    hide Range, Overwritten;
    var after := Overwritten(files, outs, lengths, all, |outs|);
    if PathsAgree(outs, lengths, all) {
      forall k | 0 <= k < |outs|
        ensures after[outs[k]] == Range(lengths, all, k)
      {
        LastRange(files, outs, lengths, all, |outs|, k);
      }
    }
  }

  /** The ranges of the files, one after the other, are the torrent as far as they reach. */
  lemma {:induction false} RangesJoin(lengths: seq<int>, all: Bytes, k: nat)
    requires k <= |lengths| && Offset(Wanted(lengths), k) <= |all|
    ensures 0 <= Offset(Wanted(lengths), k)
    ensures Concat(seq(k, i requires 0 <= i < k => Range(lengths, all, i))) == all[..Offset(Wanted(lengths), k)]
  {
    var wanted := Wanted(lengths);
    OffsetBounds(wanted, k);
    if k == 0 {
      NoOffset(wanted);
    } else {
      OffsetStep(wanted, k - 1);
      RangesJoin(lengths, all, k - 1);
      var ranges := seq(k, i requires 0 <= i < k => Range(lengths, all, i));
      assert ranges[..k - 1] == seq(k - 1, i requires 0 <= i < k - 1 => Range(lengths, all, i));
      Grow(all, 0, Offset(wanted, k - 1), Offset(wanted, k));
    }
  }

  // ---------- Multi-file torrents ----------

  /**
    How assembling ends: with an error before anything is copied, with a panic or an endless
    loop, or after all copies.
   */
  datatype Outcome = NotCreated(disk: Disk) | Stuck | Assembled(disk: Disk)

  function AssembleFiles(d: Disk, parent: Path, entries: seq<FileEntry>, pieces: seq<Path>, pieceLength: int): Outcome
    requires 0 < pieceLength
  {
    var (e, ok) := Prepare(d, parent, PathsOf(entries));
    var outs := Outputs(parent, PathsOf(entries));
    if !ok || !Open(e.files, pieces) || !Open(e.files, outs) then NotCreated(e)
    else
      match CopyFiles(e.files, outs, LengthsOf(entries), pieces, pieceLength, |outs|)
      case None => Stuck
      case Some(w) => Assembled(e.(files := w.files))
  }

  ghost predicate Apart(outs: seq<Path>, pieces: seq<Path>) {
    forall p <- outs :: p !in pieces
  }

  /**
    Creating the outputs leaves the piece files alone exactly if no output is one of them,
    since a piece is never empty and creating truncates.
   */
  lemma PreparedPieces(d: Disk, parent: Path, paths: seq<seq<Bytes>>, pieces: seq<Path>, contents: seq<Bytes>)
    requires Holds(d.files, pieces, contents) && forall k :: 0 <= k < |contents| ==> contents[k] != []
    requires Prepare(d, parent, paths).1
    ensures Open(Prepare(d, parent, paths).0.files, pieces)
    ensures Holds(Prepare(d, parent, paths).0.files, pieces, contents) <==> Apart(Outputs(parent, paths), pieces)
  {
    hide Prepare, Outputs;
    var outs, e := Outputs(parent, paths), Prepare(d, parent, paths).0;
    forall k | 0 <= k < |pieces|
      ensures pieces[k] in e.files && (e.files[pieces[k]] == contents[k] <==> pieces[k] !in outs)
    {
      PrepareTruncates(d, parent, paths, pieces[k]);
    }
    if Holds(e.files, pieces, contents) {
      forall p <- outs
        ensures p !in pieces
      {
        if k :| 0 <= k < |pieces| && pieces[k] == p {
        }
      }
    }
  }

  /** All copies are made, from pieces that creating the outputs left alone, and each output is right. */
  ghost predicate Flawless(d: Disk, parent: Path, entries: seq<FileEntry>, pieces: seq<Path>, contents: seq<Bytes>, pieceLength: int)
    requires 0 < pieceLength
  {
    var r := AssembleFiles(d, parent, entries, pieces, pieceLength);
    && Holds(Prepare(d, parent, PathsOf(entries)).0.files, pieces, contents)
    && r.Assembled?
    && EachHolds(r.disk.files, Outputs(parent, PathsOf(entries)), LengthsOf(entries), Concat(contents))
  }

  /**
    Assembling is flawless if and only if the outputs can be created, none of them is a piece
    file, the files do not want more bytes than there are, and files with the same path agree.
    It then changes no file but the outputs.
   */
  lemma AssemblyExact(d: Disk, parent: Path, entries: seq<FileEntry>, pieces: seq<Path>, contents: seq<Bytes>, pieceLength: int)
    requires Holds(d.files, pieces, contents) && Full(contents, pieceLength)
    ensures var outs, lengths := Outputs(parent, PathsOf(entries)), LengthsOf(entries);
            var created := Prepare(d, parent, PathsOf(entries)).1;
            var r := AssembleFiles(d, parent, entries, pieces, pieceLength);
            && (Flawless(d, parent, entries, pieces, contents, pieceLength) <==>
                  && created && Apart(outs, pieces)
                  && Sum(Wanted(lengths)) <= |Concat(contents)| && PathsAgree(outs, lengths, Concat(contents)))
            && (created && Apart(outs, pieces) ==>
                  (r.Assembled? <==> Sum(Wanted(lengths)) <= |Concat(contents)|) && !r.NotCreated?)
            && (created && Apart(outs, pieces) && r.Assembled? ==>
                  forall p <- d.files :: p !in outs ==> p in r.disk.files && r.disk.files[p] == d.files[p])
  {
    hide Prepare, Full, Concat, Sum, Offset, CopyFiles, Overwritten, Range, Wanted;
    var paths := PathsOf(entries);
    var outs, lengths := Outputs(parent, paths), LengthsOf(entries);
    var e := Prepare(d, parent, paths).0;
    FullNotEmpty(contents, pieceLength);
    if Prepare(d, parent, paths).1 {
      PreparedPieces(d, parent, paths, pieces, contents);
      forall p
        ensures if p in outs then p in e.files && e.files[p] == []
                else (p in e.files <==> p in d.files) && (p in d.files ==> e.files[p] == d.files[p])
      {
        PrepareTruncates(d, parent, paths, p);
      }
      if Apart(outs, pieces) {
        CopyFilesExact(e.files, outs, lengths, pieces, pieceLength, contents, |outs|);
        NoOffsetWanted(lengths);
        EachHoldsIff(e.files, outs, lengths, Concat(contents));
        forall p <- d.files | p !in outs
          ensures Overwritten(e.files, outs, lengths, Concat(contents), |outs|)[p] == d.files[p]
        {
          NotWritten(e.files, outs, lengths, Concat(contents), |outs|, p);
        }
      }
    }
  }

  lemma NoOffsetWanted(lengths: seq<int>)
    ensures |Wanted(lengths)| == |lengths| && Offset(Wanted(lengths), |lengths|) == Sum(Wanted(lengths))
  {
    NoOffset(Wanted(lengths));
  }

  lemma FullNotEmpty(contents: seq<Bytes>, pieceLength: int)
    requires Full(contents, pieceLength)
    ensures 0 < pieceLength && forall k :: 0 <= k < |contents| ==> contents[k] != []
  {
  }

  // ---------- Whatever happens, only outputs are written ----------

  lemma {:induction false} CreateAllKeeps(d: Disk, parent: Path, paths: seq<seq<Bytes>>, k: nat, p: Path)
    requires k <= |paths| && p !in Outputs(parent, paths)
    ensures var e := CreateAll(d, parent, paths, k).0;
            (p in e.files <==> p in d.files) && (p in d.files ==> e.files[p] == d.files[p])
  {
    if k > 0 {
      CreateAllKeeps(d, parent, paths, k - 1, p);
      CreateOneTruncates(CreateAll(d, parent, paths, k - 1).0, parent, paths[k - 1]);
      assert Outputs(parent, paths)[k - 1] == Join(parent, paths[k - 1]);
    }
  }

  lemma {:induction false} CopyFileKeeps(w: Walk, out: Path, c: nat, length: int, pieces: seq<Path>, pieceLength: int, p: Path)
    requires out in w.files && Open(w.files, pieces) && 0 < w.left <= pieceLength && p in w.files && p != out
    ensures var r := CopyFile(w, out, c, length, pieces, pieceLength);
            r.Some? ==> r.value.files[p] == w.files[p]
    decreases length - c
  {
    hide CopyFile;
    CopyFileUnfolds(w, out, c, length, pieces, pieceLength);
    if c < length {
      var n := Min(w.left, length - c);
      var v := CopyChunk(w, out, c, n, pieces, pieceLength);
      if v.Some? {
        CopyNKeeps(w.files, pieces[w.cp], pieceLength - w.left, out, c, n);
        CopyFileKeeps(v.value, out, c + n, length, pieces, pieceLength, p);
      }
    }
  }

  lemma {:induction false} CopyFilesKeeps(files: map<Path, Bytes>, outs: seq<Path>, lengths: seq<int>, pieces: seq<Path>,
                                          pieceLength: int, k: nat, p: Path)
    requires k <= |outs| == |lengths| && Open(files, outs) && Open(files, pieces) && 0 < pieceLength
    requires p in files && p !in outs
    ensures var r := CopyFiles(files, outs, lengths, pieces, pieceLength, k);
            r.Some? ==> r.value.files[p] == files[p]
  {
    hide CopyFile;
    if k > 0 {
      CopyFilesKeeps(files, outs, lengths, pieces, pieceLength, k - 1, p);
      var r := CopyFiles(files, outs, lengths, pieces, pieceLength, k - 1);
      if r.Some? {
        CopyFileKeeps(r.value, outs[k - 1], 0, lengths[k - 1], pieces, pieceLength, p);
      }
    }
  }

  /** Every file that is no output is left as it was, whatever the names and however it ends. */
  lemma OnlyOutputsChange(d: Disk, parent: Path, entries: seq<FileEntry>, pieces: seq<Path>, pieceLength: int, p: Path)
    requires 0 < pieceLength && p in d.files && p !in Outputs(parent, PathsOf(entries))
    ensures var r := AssembleFiles(d, parent, entries, pieces, pieceLength);
            !r.Stuck? ==> p in r.disk.files && r.disk.files[p] == d.files[p]
  {
    hide CreateAll, CopyFiles;
    var paths := PathsOf(entries);
    var e := Prepare(d, parent, paths).0;
    if Exists(d, parent) {
      CreateAllKeeps(d, parent, paths, |paths|, p);
    } else if Mkdir(d, parent).Some? {
      CreateAllKeeps(Mkdir(d, parent).value, parent, paths, |paths|, p);
    }
    var outs := Outputs(parent, paths);
    if Open(e.files, outs) && Open(e.files, pieces) {
      CopyFilesKeeps(e.files, outs, LengthsOf(entries), pieces, pieceLength, |outs|, p);
    }
  }

  // ---------- When the first piece is an output ----------

  /** If an output is the first piece's file, the first byte to be copied is waited for for ever. */
  lemma {:induction false} FirstPieceSticks(files: map<Path, Bytes>, outs: seq<Path>, lengths: seq<int>, pieces: seq<Path>,
                                            pieceLength: int, k: nat)
    requires k <= |outs| == |lengths| && Open(files, outs) && Open(files, pieces) && 0 < pieceLength
    requires |pieces| > 0 && files[pieces[0]] == []
    ensures var r := CopyFiles(files, outs, lengths, pieces, pieceLength, k);
            if exists i :: 0 <= i < k && lengths[i] > 0 then r == None else r == Some(Walk(files, 0, pieceLength))
  {
    if k > 0 {
      FirstPieceSticks(files, outs, lengths, pieces, pieceLength, k - 1);
    }
  }

  /** So it never ends if any file is to get a byte. */
  lemma FirstPieceIsOutput(d: Disk, parent: Path, entries: seq<FileEntry>, pieces: seq<Path>, pieceLength: int, j: nat)
    requires 0 < pieceLength && Prepare(d, parent, PathsOf(entries)).1 && |pieces| > 0 && Open(d.files, pieces)
    requires pieces[0] in Outputs(parent, PathsOf(entries)) && j < |entries| && entries[j].length > 0
    ensures AssembleFiles(d, parent, entries, pieces, pieceLength) == Stuck
  {
    hide Prepare, CopyFiles;
    var paths := PathsOf(entries);
    var e, outs, lengths := Prepare(d, parent, paths).0, Outputs(parent, paths), LengthsOf(entries);
    forall p | p in outs || p in pieces
      ensures p in e.files && (p in outs ==> e.files[p] == [])
    {
      PrepareTruncates(d, parent, paths, p);
    }
    assert Open(e.files, outs) && Open(e.files, pieces);
    FirstPieceSticks(e.files, outs, lengths, pieces, pieceLength, |outs|);
    assert lengths[j] > 0;
  }
}
