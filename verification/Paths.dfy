/** Cleaned paths, and the names the client gives to the files of its own. */
module Paths {
  import opened Base
  import Bencode
  import BencodeRoundTrip

  /** The components of a cleaned path, from the root down. */
  type Path = seq<Bytes>

  const DOT: Bytes := [46]
  const DOTDOT: Bytes := [46, 46]

  /** `filepath.Join`: resolves names one by one, lexically, below a cleaned path. */
  function Join(base: Path, names: seq<Bytes>): Path
    decreases |names|
  {
    if |names| == 0 then base
    else if names[0] == [] || names[0] == DOT then Join(base, names[1..])
    else if names[0] == DOTDOT then Join(if base == [] then [] else base[..|base| - 1], names[1..])
    else Join(base + [names[0]], names[1..])
  }

  /** A name that is resolved as it is. */
  predicate Plain(name: Bytes) {
    name != [] && name != DOT && name != DOTDOT
  }

  predicate AllPlain(names: seq<Bytes>) {
    forall i :: 0 <= i < |names| ==> Plain(names[i])
  }

  /** Plain names are components below the base, in order. */
  lemma {:induction false} JoinPlain(base: Path, names: seq<Bytes>)
    requires AllPlain(names)
    ensures Join(base, names) == base + names
    decreases |names|
  {
    if |names| > 0 {
      JoinPlain(base + [names[0]], names[1..]);
    }
  }

  /** Names are resolved one after the other; ".", ".." and empty names are no components. */
  lemma {:induction false} JoinSplit(base: Path, a: seq<Bytes>, b: seq<Bytes>)
    ensures Join(base, a + b) == Join(Join(base, a), b)
    decreases |a|
  {
    if |a| == 0 {
      assert a + b == b;
    } else {
      assert (a + b)[0] == a[0] && (a + b)[1..] == a[1..] + b;
      var next := if a[0] == [] || a[0] == DOT then base
                  else if a[0] == DOTDOT then (if base == [] then [] else base[..|base| - 1])
                  else base + [a[0]];
      JoinSplit(next, a[1..], b);
    }
  }

  lemma JoinDots(base: Path, name: Bytes)
    ensures Join(base, [[]]) == base && Join(base, [Ascii(".")]) == base
    ensures Join([], [Ascii("..")]) == []
    ensures Join(base + [name], [Ascii("..")]) == base
  {
    assert Ascii(".") == DOT && Ascii("..") == DOTDOT;
    var none: seq<Bytes> := [[]];
    assert none[1..] == [] && [DOT][1..] == [] && [DOTDOT][1..] == [];
  }

  /** Piece `i` is the file "i.bin"; the bitfield is saved as "bitfield.bin". */
  lemma OwnFiles(dir: Path, i: nat)
    ensures PiecePath(dir, i) == dir + [Bencode.Number(i) + Ascii(".bin")]
    ensures BitfieldPath(dir) == dir + [Ascii("bitfield.bin")]
  {
    assert SUFFIX == Ascii(".bin") && BITFIELD == Ascii("bitfield.bin");
  }

  function Parent(p: Path): Path
    requires p != []
  {
    p[..|p| - 1]
  }

  /** `.bin` and `bitfield.bin`. */
  const SUFFIX: Bytes := [46, 98, 105, 110]
  const BITFIELD: Bytes := [98, 105, 116, 102, 105, 101, 108, 100, 46, 98, 105, 110]

  function PieceName(i: nat): Bytes {
    Bencode.Decimal(i) + SUFFIX
  }

  function PiecePath(dir: Path, i: nat): Path {
    dir + [PieceName(i)]
  }

  function BitfieldPath(dir: Path): Path {
    dir + [BITFIELD]
  }

  /** The files 0 to n-1 of a torrent's pieces. */
  function PiecePaths(dir: Path, n: nat): seq<Path> {
    seq(n, i requires 0 <= i < n => PiecePath(dir, i))
  }

  /** Every piece has a file of its own, and none of them is the saved bitfield. */
  lemma OwnNames(dir: Path, i: nat, j: nat)
    ensures PiecePath(dir, i) == PiecePath(dir, j) ==> i == j
    ensures PiecePath(dir, i) != BitfieldPath(dir)
  {
    hide Bencode.Decimal, Bencode.ParseDigits;
    BencodeRoundTrip.DecimalIsNumeral(i);
    BencodeRoundTrip.DecimalIsNumeral(j);
    var a, b := PieceName(i), PieceName(j);
    assert PiecePath(dir, i)[|dir|] == a && PiecePath(dir, j)[|dir|] == b;
    assert a[..|a| - 4] == Bencode.Decimal(i) && b[..|b| - 4] == Bencode.Decimal(j);
    assert a[0] == Bencode.Decimal(i)[0] && Bencode.IsDigit(a[0]);
    assert BitfieldPath(dir)[|dir|] == BITFIELD && !Bencode.IsDigit(BITFIELD[0]);
  }
}
