/** A directory tree as the client's calls into the operating system change it. */
module Disk {
  import opened Base
  import opened Paths

  datatype Disk = Disk(files: map<Path, Bytes>, dirs: set<Path>)

  predicate Exists(d: Disk, p: Path) {
    p in d.files || p in d.dirs
  }

  /** `os.Mkdir`: nothing may be there yet, and the parent must be a directory. */
  function Mkdir(d: Disk, p: Path): Option<Disk> {
    if p == [] || Exists(d, p) || Parent(p) !in d.dirs then None
    else Some(d.(dirs := d.dirs + {p}))
  }

  /** `os.MkdirAll`: makes what is missing from the root down; `(d', false)` if a file is in the way. */
  function MkdirAll(d: Disk, p: Path): (Disk, bool)
    decreases |p|
  {
    if p in d.dirs then (d, true)
    else if p == [] then (d, false)
    else
      var (e, ok) := MkdirAll(d, Parent(p));
      if !ok then (e, false)
      else
        match Mkdir(e, p)
        case None => (e, false)
        case Some(f) => (f, true)
  }

  /** `os.Create`: makes an empty file or truncates the one that is there. */
  function Create(d: Disk, p: Path): Option<Disk> {
    if p == [] || p in d.dirs || Parent(p) !in d.dirs then None
    else Some(d.(files := d.files[p := []]))
  }

  /** A directory tree: files and directories are in directories, and nothing is both. */
  ghost predicate Tree(d: Disk) {
    && [] in d.dirs
    && (forall p <- d.files :: p !in d.dirs && p != [] && Parent(p) in d.dirs)
    && forall p <- d.dirs :: p != [] ==> Parent(p) in d.dirs
  }

  /** What is above a directory is a directory. */
  lemma {:induction false} Above(d: Disk, p: Path, m: nat)
    requires Tree(d) && p in d.dirs && m <= |p|
    ensures p[..m] in d.dirs
    decreases |p|
  {
    if m == |p| {
      assert p[..m] == p;
    } else {
      Above(d, Parent(p), m);
      assert Parent(p)[..m] == p[..m];
    }
  }

  /** `os.MkdirAll` succeeds exactly if no file is on the way, and makes exactly the directories on it. */
  lemma {:induction false} MkdirAllExact(d: Disk, p: Path)
    requires Tree(d)
    ensures var (e, ok) := MkdirAll(d, p);
            && (ok <==> forall m :: 0 <= m <= |p| ==> p[..m] !in d.files)
            && Tree(e) && e.files == d.files
            && (ok ==> forall q :: q in e.dirs <==> q in d.dirs || exists m :: 0 <= m <= |p| && q == p[..m])
    decreases |p|
  {
    assert p[..|p|] == p;
    if p in d.dirs {
      forall m | 0 <= m <= |p|
        ensures p[..m] in d.dirs
      {
        Above(d, p, m);
      }
    } else {
      var up := Parent(p);
      MkdirAllExact(d, up);
      assert forall m :: 0 <= m <= |up| ==> up[..m] == p[..m];
      var (e, ok) := MkdirAll(d, up);
      if ok {
        assert up[..|up|] == up && up in e.dirs;
        assert p !in e.dirs;
      }
    }
  }

  /** The file `was` after `b` was written at offset `at`; a gap before it reads as zeros. */
  function WriteAt(was: Bytes, at: nat, b: byte): Bytes {
    if at < |was| then was[at := b] else was + seq(at - |was|, i => 0) + [b]
  }

  /**
    `io.CopyN` from offset `p` of one file to offset `c` of another, which may be the same one: it
    reads what is there when it gets there, and stops early at the end of the file.
   */
  function CopyN(files: map<Path, Bytes>, from: Path, p: nat, to: Path, c: nat, n: nat): (map<Path, Bytes>, nat)
    requires from in files && to in files
    decreases n
  {
    if n == 0 || p >= |files[from]| then (files, 0)
    else
      var (rest, w) := CopyN(files[to := WriteAt(files[to], c, files[from][p])], from, p + 1, to, c + 1, n - 1);
      (rest, w + 1)
  }

  lemma {:induction false} CopyNKeeps(files: map<Path, Bytes>, from: Path, p: nat, to: Path, c: nat, n: nat)
    requires from in files && to in files
    ensures var (after, w) := CopyN(files, from, p, to, c, n);
            w <= n && after.Keys == files.Keys && forall q <- files :: q != to ==> after[q] == files[q]
    decreases n
  {
    if n > 0 && p < |files[from]| {
      CopyNKeeps(files[to := WriteAt(files[to], c, files[from][p])], from, p + 1, to, c + 1, n - 1);
    }
  }

  /** The part of a file behind an offset. */
  function Tail(s: Bytes, at: nat): Bytes {
    if at < |s| then s[at..] else []
  }

  /**
    Between two files, a copy that continues what was written so far reads as much as there is
    and lets it replace the target's bytes from there on.
   */
  lemma {:induction false} CopyNExact(files: map<Path, Bytes>, from: Path, p: nat, to: Path, done: Bytes, was: Bytes, n: nat)
    requires from in files && to in files && from != to && p <= |files[from]|
    requires files[to] == done + Tail(was, |done|)
    ensures var (after, w) := CopyN(files, from, p, to, |done|, n);
            && w == Min(n, |files[from]| - p)
            && var out := done + files[from][p..p + w];
               after == files[to := out + Tail(was, |out|)]
    decreases n
  {
    hide WriteAt, Tail;
    if n == 0 || p == |files[from]| {
      assert done + files[from][p..p] == done;
      assert files[to := files[to]] == files;
    } else {
      var b := files[from][p];
      var next := files[to := WriteAt(files[to], |done|, b)];
      WriteContinues(done, was, b);
      CopyNExact(next, from, p + 1, to, done + [b], was, n - 1);
      var (after, w) := CopyN(next, from, p + 1, to, |done| + 1, n - 1);
      SliceContinues(done, files[from], p, w);
      var out := done + [b] + files[from][p + 1..p + 1 + w];
      assert after == next[to := out + Tail(was, |out|)] == files[to := out + Tail(was, |out|)];
    }
  }

  lemma SliceContinues(done: Bytes, s: Bytes, p: nat, w: nat)
    requires p + 1 + w <= |s|
    ensures done + [s[p]] + s[p + 1..p + 1 + w] == done + s[p..p + (w + 1)]
  {
    assert [s[p]] + s[p + 1..p + 1 + w] == s[p..p + 1 + w];
  }

  lemma WriteContinues(done: Bytes, was: Bytes, b: byte)
    ensures WriteAt(done + Tail(was, |done|), |done|, b) == done + [b] + Tail(was, |done| + 1)
  {
  }
}
