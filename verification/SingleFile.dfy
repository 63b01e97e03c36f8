/** Joining the verified pieces of a torrent that is one file. */
module SingleFile {
  import opened Base
  import opened Paths
  import opened Disk
  import opened Assembly

  /**
    Copies the first `k` pieces behind one another. A piece file that is the output itself, and
    not empty any more, grows as fast as it is read, so that its copy never ends.
   */
  function JoinPieces(files: map<Path, Bytes>, out: Path, pieces: seq<Path>, k: nat): (r: Option<(map<Path, Bytes>, nat)>)
    requires k <= |pieces| && out in files && Open(files, pieces)
    ensures r.Some? ==> r.value.0.Keys == files.Keys
  {
    if k == 0 then Some((files, 0))
    else
      match JoinPieces(files, out, pieces, k - 1)
      case None => None
      case Some((before, copied)) =>
        var piece := pieces[k - 1];
        if piece == out then (if before[out] == [] then Some((before, copied)) else None)
        else
          CopyNKeeps(before, piece, 0, out, copied, |before[piece]|);
          var (after, w) := CopyN(before, piece, 0, out, copied, |before[piece]|);
          Some((after, copied + w))
  }

  /** How assembling ends; `Short` is the error that the copied bytes are not the torrent's size. */
  datatype Result = Refused | Endless | Short(copied: nat) | Complete(disk: Disk)

  function AssembleSingle(d: Disk, out: Path, pieces: seq<Path>, total: int): Result {
    match Create(d, out)
    case None => Refused
    case Some(e) =>
      if !Open(e.files, pieces) then Refused
      else
        match JoinPieces(e.files, out, pieces, |pieces|)
        case None => Endless
        case Some((files, copied)) => if copied == total then Complete(e.(files := files)) else Short(copied)
  }

  /** As long as no piece is the output, the output is the pieces in order. */
  lemma {:induction false} JoinExact(files: map<Path, Bytes>, out: Path, pieces: seq<Path>, contents: seq<Bytes>, k: nat)
    requires k <= |pieces| == |contents| && out in files && files[out] == [] && Open(files, pieces)
    requires forall i :: 0 <= i < k ==> pieces[i] != out && files[pieces[i]] == contents[i]
    ensures JoinPieces(files, out, pieces, k)
            == Some((files[out := Concat(contents[..k])], |Concat(contents[..k])|))
  {
    if k == 0 {
      assert files[out := []] == files;
    } else {
      JoinExact(files, out, pieces, contents, k - 1);
      assert contents[..k][..k - 1] == contents[..k - 1];
      JoinStep(files, out, pieces[k - 1], Concat(contents[..k - 1]));
    }
  }

  lemma JoinStep(files: map<Path, Bytes>, out: Path, piece: Path, done: Bytes)
    requires out in files && piece in files && piece != out
    ensures CopyN(files[out := done], piece, 0, out, |done|, |files[piece]|)
            == (files[out := done + files[piece]], |files[piece]|)
  {
    var before, all := files[out := done], done + files[piece];
    assert done == done + Tail([], |done|) && all == all + Tail([], |all|);
    CopyNExact(before, piece, 0, out, done, [], |files[piece]|);
    assert files[piece][0..|files[piece]|] == files[piece];
    assert before[out := all] == files[out := all];
  }

  /** If the output is the first piece's file, the first piece is missing from the result. */
  lemma {:induction false} JoinWithoutFirst(files: map<Path, Bytes>, pieces: seq<Path>, contents: seq<Bytes>, k: nat)
    requires 0 < k <= |pieces| == |contents| && Open(files, pieces) && files[pieces[0]] == []
    requires forall i :: 0 < i < k ==> pieces[i] != pieces[0] && files[pieces[i]] == contents[i]
    ensures JoinPieces(files, pieces[0], pieces, k)
            == Some((files[pieces[0] := Concat(contents[1..k])], |Concat(contents[1..k])|))
  {
    var out := pieces[0];
    if k == 1 {
      assert JoinPieces(files, out, pieces, 0) == Some((files, 0));
      assert files[out := []] == files && contents[1..1] == [];
    } else {
      JoinWithoutFirst(files, pieces, contents, k - 1);
      assert contents[1..k][..k - 2] == contents[1..k - 1];
      JoinStep(files, out, pieces[k - 1], Concat(contents[1..k - 1]));
    }
  }

  lemma {:induction false} StaysStuck(files: map<Path, Bytes>, out: Path, pieces: seq<Path>, j: nat, k: nat)
    requires j <= k <= |pieces| && out in files && Open(files, pieces) && JoinPieces(files, out, pieces, j) == None
    ensures JoinPieces(files, out, pieces, k) == None
  {
    if j < k {
      StaysStuck(files, out, pieces, j, k - 1);
    }
  }

  /**
    A single file is assembled from its pieces if and only if it can be created and is not itself
    one of the piece files; and then it is all pieces in order, and no other file has changed.
   */
  lemma SingleExact(d: Disk, out: Path, pieces: seq<Path>, contents: seq<Bytes>, total: int)
    requires Holds(d.files, pieces, contents) && total == |Concat(contents)|
    requires forall k :: 0 <= k < |contents| ==> contents[k] != []
    requires forall i, j :: 0 <= i < j < |pieces| ==> pieces[i] != pieces[j]
    ensures var r := AssembleSingle(d, out, pieces, total);
            && (r.Complete? <==> Create(d, out).Some? && out !in pieces)
            && (r.Complete? ==> r.disk == d.(files := d.files[out := Concat(contents)]))
  {
    hide Concat, JoinPieces;
    if Create(d, out).Some? {
      var e := Create(d, out).value;
      if out !in pieces {
        JoinExact(e.files, out, pieces, contents, |pieces|);
        assert contents[..|pieces|] == contents;
        assert e.files[out := Concat(contents)] == d.files[out := Concat(contents)];
      } else {
        OutputIsPiece(e.files, out, pieces, contents);
      }
    }
  }

  lemma OutputIsPiece(files: map<Path, Bytes>, out: Path, pieces: seq<Path>, contents: seq<Bytes>)
    requires |pieces| == |contents| && out in pieces && Open(files, pieces) && files[out] == []
    requires forall k :: 0 <= k < |contents| ==> contents[k] != [] && (pieces[k] != out ==> files[pieces[k]] == contents[k])
    requires forall i, j :: 0 <= i < j < |pieces| ==> pieces[i] != pieces[j]
    ensures var r := JoinPieces(files, out, pieces, |pieces|);
            r.None? || r.value.1 < |Concat(contents)|
  {
    hide Concat;
    var j :| 0 <= j < |pieces| && pieces[j] == out;
    var n := |pieces|;
    if j == 0 {
      JoinWithoutFirst(files, pieces, contents, n);
      FirstAndRest(contents, n);
      assert contents[..n] == contents;
    } else {
      JoinExact(files, out, pieces, contents, j);
      FirstAndRest(contents, j);
      assert JoinPieces(files, out, pieces, j + 1) == None;
      StaysStuck(files, out, pieces, j + 1, n);
    }
  }

  lemma FirstAndRest(contents: seq<Bytes>, j: nat)
    requires 0 < j <= |contents|
    ensures |Concat(contents[..j])| == |contents[0]| + |Concat(contents[1..j])|
  {
    assert contents[..j] == [contents[0]] + contents[1..j];
    ConcatSplit([contents[0]], contents[1..j]);
    assert Concat([contents[0]]) == contents[0];
  }
}
