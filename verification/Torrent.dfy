/** The sizes and hashes a metainfo file fixes for every piece. */
module Torrent {
  import opened Base

  datatype Layout = SingleFile(length: int) | MultiFile(lengths: seq<int>)

  /** `pieces` is the concatenation of the 20-byte SHA-1 digests. */
  datatype MetaInfo = MetaInfo(pieceLength: int, layout: Layout, pieces: Bytes) {

    function Total(): int {
      match layout
      case SingleFile(length) => length
      case MultiFile(lengths) => Sum(lengths)
    }

    function NumPieces(): nat {
      |pieces| / 20
    }

    /** Size of piece `i` as the scheduler and the restart code compute it. */
    function PieceSize(i: int): int {
      Min(i * pieceLength + pieceLength, Total()) - i * pieceLength
    }

    /** Where the digest of piece `i` is sliced from: both ends are `uint32` products and wrap. */
    function HashBounds(i: int): (int, int) {
      (ToU32(i * 20), ToU32(i * 20 + 20))
    }

    /** The digest piece `i` is checked against; `None` is Go's slice-bounds panic. */
    function PieceHash(i: int): Option<Bytes> {
      var (lo, hi) := HashBounds(i);
      if lo <= hi <= |pieces| then Some(pieces[lo..hi]) else None
    }

    /**
      The shape every caller relies on and the parser does not check. The last piece ends
      with the torrent, and the digest table can be indexed with 32-bit arithmetic.
     */
    ghost predicate Geometry() {
      && 0 < pieceLength < U32
      && 0 < NumPieces() && 20 * NumPieces() < U32
      && (NumPieces() - 1) * pieceLength < Total() <= NumPieces() * pieceLength
    }
  }

  /** Adds up the file lengths one by one, as the source's loop does. */
  method BytesToDownload(m: MetaInfo) returns (total: int)
    ensures total == m.Total()
  {
    match m.layout
    case SingleFile(length) => total := length;
    case MultiFile(lengths) =>
      total := 0;
      for k := 0 to |lengths|
        invariant total == Sum(lengths[..k])
      {
        assert lengths[..k + 1][..k] == lengths[..k];
        total := total + lengths[k];
      }
      assert lengths[..|lengths|] == lengths;
  }

  /** There is a piece for every whole digest of 20 bytes, and the total is the sum of all files. */
  lemma NumPiecesExact(m: MetaInfo)
    ensures 20 * m.NumPieces() <= |m.pieces| < 20 * m.NumPieces() + 20
    ensures m.layout.SingleFile? ==> m.Total() == m.layout.length
    ensures m.layout == MultiFile([]) ==> m.Total() == 0
    ensures m.layout.MultiFile? && m.layout.lengths != [] ==>
              m.Total() == m.(layout := MultiFile(m.layout.lengths[1..])).Total() + m.layout.lengths[0]
  {
    if m.layout.MultiFile? && m.layout.lengths != [] {
      var lengths := m.layout.lengths;
      assert lengths == [lengths[0]] + lengths[1..];
      SumSplit([lengths[0]], lengths[1..]);
      assert [lengths[0]][..0] == [];
    }
  }

  /**
    Digest `i` is read from its own 20 bytes exactly when its end offset fits in 32 bits, and
    slicing it panics exactly when the end wraps below the start. With that many pieces, piece
    214748364 panics and piece 214748365 is checked against bytes 4 to 24.
   */
  lemma PieceHashExact(m: MetaInfo, i: int)
    requires 0 <= i < m.NumPieces()
    ensures m.HashBounds(i) == (20 * i, 20 * i + 20) <==> 20 * i + 20 < U32
    ensures 20 * i + 20 < U32 ==> m.PieceHash(i) == Some(m.pieces[20 * i..20 * i + 20])
    ensures m.PieceHash(i) == None <==> U32 <= ToU32(20 * i) + 20
    ensures i == 214748364 ==> m.PieceHash(i) == None
    ensures i == 214748365 ==> m.PieceHash(i) == Some(m.pieces[4..24])
  {
    assert 0 <= ToU32(i * 20 + 20) < U32;
  }

  lemma {:induction false} MulLess(a: int, b: int, m: int)
    requires a < b && 0 < m
    ensures a * m + m <= b * m
  {
    assert (b - a) * m >= m by { MulAtLeast(b - a, m); }
    assert (b - a) * m == b * m - a * m;
  }

  lemma MulAtLeast(a: int, m: int)
    requires 1 <= a && 0 < m
    ensures a * m >= m
  {
    assert (a - 1) * m >= 0;
  }

  /** Every piece but the last is full, the last is what remains, and none is empty. */
  lemma PieceSizeShape(m: MetaInfo, i: int)
    requires m.Geometry() && 0 <= i < m.NumPieces()
    ensures 0 < m.PieceSize(i) <= m.pieceLength
    ensures i < m.NumPieces() - 1 ==> m.PieceSize(i) == m.pieceLength
    ensures i == m.NumPieces() - 1 ==> i * m.pieceLength + m.PieceSize(i) == m.Total()
    ensures 0 <= i * m.pieceLength && i * m.pieceLength + m.pieceLength < I64
  {
    var n, l := m.NumPieces(), m.pieceLength;
    if i < n - 1 {
      MulLess(i, n - 1, l);
    }
    assert i * l + l <= n * l by { MulLess(i, n, l); }
    assert n * l < U32 * U32 / 20 by {
      assert n * l <= n * U32;
    }
    assert 0 <= i * l;
  }

  function PieceSizes(m: MetaInfo): seq<int> {
    seq(m.NumPieces(), i requires 0 <= i < m.NumPieces() => m.PieceSize(i))
  }

  /** A piece ends where the next one begins, or with the torrent. */
  lemma PieceEnds(m: MetaInfo, i: nat)
    requires m.Geometry() && i < m.NumPieces()
    ensures Min(i * m.pieceLength, m.Total()) + m.PieceSize(i) == Min((i + 1) * m.pieceLength, m.Total())
  {
    var n, l := m.NumPieces(), m.pieceLength;
    if i < n - 1 {
      MulLess(i, n - 1, l);
    }
    assert (i + 1) * l == i * l + l;
  }

  lemma {:induction false} PrefixSizes(m: MetaInfo, k: nat)
    requires m.Geometry() && k <= m.NumPieces()
    ensures Sum(PieceSizes(m)[..k]) == Min(k * m.pieceLength, m.Total())
  {
    hide Min;
    var sizes := PieceSizes(m);
    if k > 0 {
      PrefixSizes(m, k - 1);
      PieceEnds(m, k - 1);
      assert sizes[..k][..k - 1] == sizes[..k - 1];
    } else {
      NoPieces(m);
    }
  }

  lemma NoPieces(m: MetaInfo)
    requires m.Geometry()
    ensures Min(0 * m.pieceLength, m.Total()) == 0
  {
    assert 0 <= (m.NumPieces() - 1) * m.pieceLength;
  }

  /** The pieces partition the torrent: their sizes add up to its total. */
  lemma SizesSumToTotal(m: MetaInfo)
    requires m.Geometry()
    ensures Sum(PieceSizes(m)) == m.Total()
  {
    PrefixSizes(m, m.NumPieces());
    assert PieceSizes(m)[..m.NumPieces()] == PieceSizes(m);
  }
}
