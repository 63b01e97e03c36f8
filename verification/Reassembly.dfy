/** Putting the received blocks of a complete piece back together. */
module Reassembly {
  import opened Base
  import opened Messages
  import opened Pending
  import opened Conservation

  /** `t` is a possible outcome of sorting `s` by block offset, with any treatment of ties. */
  ghost predicate SortOf(t: seq<Piece>, s: seq<Piece>) {
    Sorted(t) && SameElements(t, s)
  }

  predicate Sorted(t: seq<Piece>) {
    forall i, j :: 0 <= i < j < |t| ==> t[i].begin <= t[j].begin
  }

  function Insert(s: seq<Piece>, m: Piece): seq<Piece> {
    if |s| == 0 || s[|s| - 1].begin <= m.begin then s + [m]
    else Insert(s[..|s| - 1], m) + [s[|s| - 1]]
  }

  function SortByBegin(s: seq<Piece>): seq<Piece> {
    if |s| == 0 then [] else Insert(SortByBegin(s[..|s| - 1]), s[|s| - 1])
  }

  function Blocks(s: seq<Piece>): seq<Bytes> {
    seq(|s|, k requires 0 <= k < |s| => s[k].block)
  }

  function Assemble(p: PieceState): Bytes {
    Concat(Blocks(SortByBegin(p.received)))
  }

  /** The block repeats the bytes of `data` at its offset. */
  predicate Honest(m: Piece, data: Bytes) {
    0 <= m.begin && m.begin + |m.block| <= |data| && data[m.begin..m.begin + |m.block|] == m.block
  }

  predicate Covers(m: Piece, offset: int) {
    m.begin <= offset < m.begin + |m.block|
  }

  predicate Covered(received: seq<Piece>, offset: int) {
    exists k :: 0 <= k < |received| && Covers(received[k], offset)
  }

  /** No offset is covered by both blocks. */
  predicate Apart(a: Piece, b: Piece) {
    a.begin + |a.block| <= b.begin || b.begin + |b.block| <= a.begin
  }

  // ---------- Sorting ----------

  lemma {:induction false} InsertCounts(s: seq<Piece>, m: Piece, x: Piece)
    ensures Count(Insert(s, m), x) == Count(s, x) + if x == m then 1 else 0
  {
    if |s| == 0 || s[|s| - 1].begin <= m.begin {
      CountSnoc(s, m, x);
    } else {
      InsertCounts(s[..|s| - 1], m, x);
      CountSnoc(Insert(s[..|s| - 1], m), s[|s| - 1], x);
    }
  }

  lemma {:induction false} InsertSorted(s: seq<Piece>, m: Piece)
    requires Sorted(s)
    ensures |Insert(s, m)| == |s| + 1 && Sorted(Insert(s, m))
    ensures forall x <- Insert(s, m) :: x == m || x in s
  {
    if !(|s| == 0 || s[|s| - 1].begin <= m.begin) {
      var last, t := s[|s| - 1], Insert(s[..|s| - 1], m);
      InsertSorted(s[..|s| - 1], m);
      forall i | 0 <= i < |t|
        ensures t[i].begin <= last.begin
      {
        assert t[i] in t;
      }
    }
  }

  lemma {:induction false} SortByBeginSorts(s: seq<Piece>)
    ensures SortOf(SortByBegin(s), s)
  {
    if |s| > 0 {
      hide Insert, Sorted, Count;
      var was, m := s[..|s| - 1], s[|s| - 1];
      SortByBeginSorts(was);
      InsertSorted(SortByBegin(was), m);
      assert s == was + [m];
      forall x
        ensures Count(SortByBegin(s), x) == Count(s, x)
      {
        InsertCounts(SortByBegin(was), m, x);
        CountSnoc(was, m, x);
        assert Count(SortByBegin(was), x) == Count(was, x);
      }
    }
  }

  lemma {:induction false} AnswersFollow(t: seq<Piece>, s: seq<Piece>)
    requires SameElements(t, s)
    ensures SameElements(Answers(t), Answers(s))
    decreases |t|
  {
    SameElementsLength(t, s);
    if |t| > 0 {
      var m := |t| - 1;
      var last := t[m];
      assert Count(t, last) == Count(s, last);
      CountMember(t, last);
      var j := RemoveOne(s, last);
      var rest := s[..j] + s[j + 1..];
      forall x
        ensures Count(t[..m], x) == Count(rest, x)
      {
        assert Count(t, x) == Count(s, x);
      }
      AnswersFollow(t[..m], rest);
      var r := Answered(last);
      assert Answers(t) == Answers(t[..m]) + [r];
      assert Answers(rest) == Answers(s[..j]) + Answers(s[j + 1..]);
      assert Answers(s) == (Answers(s[..j]) + [r]) + Answers(s[j + 1..]);
      forall x
        ensures Count(Answers(t), x) == Count(Answers(s), x)
      {
        CountSnoc(Answers(t[..m]), r, x);
        CountSplit(Answers(s[..j]), Answers(s[j + 1..]), x);
        CountSplit(Answers(s[..j]) + [r], Answers(s[j + 1..]), x);
        CountSnoc(Answers(s[..j]), r, x);
        assert Count(Answers(t[..m]), x) == Count(Answers(rest), x);
      }
    }
  }

  /** Only one list orders the requests of a tiling by offset. */
  lemma {:induction false} SortedIsUnique(a: seq<Request>, b: seq<Request>)
    requires forall i, j :: 0 <= i < j < |a| ==> a[i].begin <= a[j].begin
    requires forall i, j :: 0 <= i < j < |b| ==> b[i].begin < b[j].begin
    requires SameElements(a, b)
    ensures a == b
    decreases |a|
  {
    SameElementsLength(a, b);
    if |a| > 0 {
      var m := |a| - 1;
      assert Count(a, a[m]) == Count(b, a[m]) && Count(a, b[m]) == Count(b, b[m]);
      CountMember(a, a[m]);
      CountMember(b, a[m]);
      CountMember(b, b[m]);
      CountMember(a, b[m]);
      var i :| 0 <= i < |b| && b[i] == a[m];
      var j :| 0 <= j < |a| && a[j] == b[m];
      assert b[m].begin <= a[m].begin;
      assert i == m;
      forall x
        ensures Count(a[..m], x) == Count(b[..m], x)
      {
        assert Count(a, x) == Count(b, x);
      }
      SortedIsUnique(a[..m], b[..m]);
    }
  }

  /** Whatever the arrival order, and however ties are treated, sorting yields the tiling. */
  lemma SortedIsTiling(p: PieceState, t: seq<Piece>)
    requires Conserved(p) && Complete(p) && SortOf(t, p.received)
    ensures Answers(t) == Tiling(p.index, 0, p.size)
  {
    var tiling := Tiling(p.index, 0, p.size);
    CompleteIsQuiet(p);
    AnswersFollow(t, p.received);
    forall x
      ensures Count(Answers(t), x) == Count(tiling, x)
    {
      assert Count(Answers(t), x) == Count(Answers(p.received), x);
    }
    TilingShape(p.index, 0, p.size);
    forall i, j | 0 <= i < j < |t|
      ensures Answers(t)[i].begin <= Answers(t)[j].begin
    {
      assert t[i].begin <= t[j].begin;
    }
    SortedIsUnique(Answers(t), tiling);
  }

  // ---------- Concatenation ----------

  /** The first `n` blocks, one after the other. */
  function Joined(t: seq<Piece>, n: nat): Bytes
    requires n <= |t|
  {
    if n == 0 then [] else Joined(t, n - 1) + t[n - 1].block
  }

  lemma {:induction false} JoinedIsConcat(t: seq<Piece>, n: nat)
    requires n <= |t|
    ensures Joined(t, n) == Concat(Blocks(t[..n]))
  {
    if n > 0 {
      JoinedIsConcat(t, n - 1);
      assert Blocks(t[..n])[..n - 1] == Blocks(t[..n - 1]);
    }
  }

  lemma {:induction false} BlocksLength(t: seq<Piece>, index: int, size: int, n: nat)
    requires 0 < size < U32 && Answers(t) == Tiling(index, 0, size) && n <= |t|
    requires forall m <- t :: |m.block| < U32
    ensures |Joined(t, n)| == Min(REQUEST_SIZE * n, size)
  {
    if n > 0 {
      hide Tiling, Answers;
      BlocksLength(t, index, size, n - 1);
      BlockAt(t, index, size, n - 1);
    }
  }

  /** In a sorted list of blocks answering a tiling, each block lands at its own offset. */
  lemma {:induction false} BlocksInPlace(t: seq<Piece>, index: int, size: int, n: nat)
    requires 0 < size < U32 && Answers(t) == Tiling(index, 0, size) && n <= |t|
    requires forall m <- t :: |m.block| < U32
    ensures forall k :: 0 <= k < n ==> Honest(t[k], Joined(t, n))
  {
    if n > 0 {
      hide Tiling, Answers, Honest;
      BlocksInPlace(t, index, size, n - 1);
      BlocksLength(t, index, size, n - 1);
      BlockAt(t, index, size, n - 1);
      HonestStill(t, n, Joined(t, n - 1));
    }
  }

  lemma HonestStill(t: seq<Piece>, n: nat, before: Bytes)
    requires 0 < n <= |t| && t[n - 1].begin == |before|
    requires forall k :: 0 <= k < n - 1 ==> Honest(t[k], before)
    ensures forall k :: 0 <= k < n ==> Honest(t[k], before + t[n - 1].block)
  {
    hide Honest;
    forall k | 0 <= k < n
      ensures Honest(t[k], before + t[n - 1].block)
    {
      HonestAppend(t[k], before, t[n - 1]);
    }
  }

  lemma BlockAt(t: seq<Piece>, index: int, size: int, n: nat)
    requires 0 < size < U32 && Answers(t) == Tiling(index, 0, size) && n < |t|
    requires forall m <- t :: |m.block| < U32
    ensures t[n].begin == REQUEST_SIZE * n < size
    ensures |t[n].block| == Min(REQUEST_SIZE, size - t[n].begin)
  {
    TilingShape(index, 0, size);
    assert Answers(t)[n] == Answered(t[n]);
    assert t[n] in t;
  }

  lemma HonestAppend(m: Piece, before: Bytes, last: Piece)
    requires Honest(m, before) || (m == last && m.begin == |before|)
    ensures Honest(m, before + last.block)
  {
    var data := before + last.block;
    if Honest(m, before) {
      assert data[m.begin..m.begin + |m.block|] == before[m.begin..m.begin + |m.block|];
    } else {
      assert data[last.begin..] == last.block;
    }
  }

  lemma SortedInPlace(p: PieceState, t: seq<Piece>)
    requires Conserved(p) && 0 < p.size < U32 && Answers(t) == Tiling(p.index, 0, p.size)
    requires forall m <- t :: m in p.received
    ensures |Concat(Blocks(t))| == p.size
    ensures forall k :: 0 <= k < |t| ==> Honest(t[k], Concat(Blocks(t)))
  {
    assert |t| == |Answers(t)|;
    assert forall m <- t :: |m.block| < U32;
    hide Conserved, Honest, Answers;
    BlocksInPlace(t, p.index, p.size, |t|);
    BlocksLength(t, p.index, p.size, |t|);
    JoinedIsConcat(t, |t|);
    assert t[..|t|] == t;
    TilingShape(p.index, 0, p.size);
  }

  /**
    A complete piece reassembles to exactly its size, every received block ends up at its own
    offset, and every offset is covered by one received block, whichever sort was used.
   */
  lemma OrderIndependent(p: PieceState, t: seq<Piece>)
    requires Conserved(p) && Complete(p) && SortOf(t, p.received)
    ensures Concat(Blocks(t)) == Assemble(p)
    ensures |Assemble(p)| == p.size
    ensures forall m <- p.received :: Honest(m, Assemble(p))
    ensures forall o :: 0 <= o < p.size ==> Covered(p.received, o)
    ensures forall k, l :: 0 <= k < l < |p.received| ==> Apart(p.received[k], p.received[l])
  {
    var sorted := SortByBegin(p.received);
    SortByBeginSorts(p.received);
    SortedIsTiling(p, sorted);
    SortMembers(sorted, p.received);
    assert |sorted| == |Answers(sorted)|;
    SortsAgree(p, t, sorted);
    SortedInPlace(p, sorted);
    forall m <- p.received
      ensures Honest(m, Assemble(p))
    {
      var k :| 0 <= k < |sorted| && sorted[k] == m;
    }
    forall o | 0 <= o < p.size
      ensures Covered(p.received, o)
    {
      Coverage(p, sorted, o);
    }
    forall k, l | 0 <= k < l < |p.received|
      ensures Apart(p.received[k], p.received[l])
    {
      DistinctBlocks(p, k, l);
    }
  }

  lemma Coverage(p: PieceState, t: seq<Piece>, o: int)
    requires Conserved(p) && Answers(t) == Tiling(p.index, 0, p.size) && 0 <= o < p.size
    requires forall k :: 0 <= k < |t| ==> t[k] in p.received
    ensures Covered(p.received, o)
  {
    TilingShape(p.index, 0, p.size);
    var k := o / REQUEST_SIZE;
    assert |t| == |Answers(t)|;
    assert Answers(t)[k] == Answered(t[k]);
    assert t[k] in p.received && Covers(t[k], o);
    var i :| 0 <= i < |p.received| && p.received[i] == t[k];
    assert Covers(p.received[i], o);
  }

  lemma SortMembers(t: seq<Piece>, s: seq<Piece>)
    requires SameElements(t, s)
    ensures forall m :: m in t <==> m in s
    ensures forall k :: 0 <= k < |t| ==> t[k] in s
  {
    forall m
      ensures m in t <==> m in s
    {
      CountMember(t, m);
      CountMember(s, m);
      assert Count(t, m) == Count(s, m);
    }
  }

  /** Two received blocks of a complete piece answer different, disjoint requests. */
  lemma DistinctBlocks(p: PieceState, k: nat, l: nat)
    requires Conserved(p) && Complete(p) && k < l < |p.received|
    ensures Answered(p.received[k]) != Answered(p.received[l])
    ensures Apart(p.received[k], p.received[l])
  {
    var answers, tiling := Answers(p.received), Tiling(p.index, 0, p.size);
    CompleteIsQuiet(p);
    assert p.received[k] in p.received && p.received[l] in p.received;
    TilingShape(p.index, 0, p.size);
    hide Conserved, Complete, Tiling, Count;
    DistinctMembers(answers, tiling, k, l);
    TilesDisjoint(p.index, p.size, answers[k], answers[l]);
  }

  lemma DistinctMembers(a: seq<Request>, tiling: seq<Request>, k: nat, l: nat)
    requires SameElements(a, tiling) && k < l < |a|
    requires forall i, j :: 0 <= i < j < |tiling| ==> tiling[i] != tiling[j]
    ensures a[k] in tiling && a[l] in tiling && a[k] != a[l]
  {
    hide Count;
    CountMember(a, a[k]);
    CountMember(a, a[l]);
    assert Count(a, a[k]) == Count(tiling, a[k]) && Count(a, a[l]) == Count(tiling, a[l]);
    CountMember(tiling, a[k]);
    CountMember(tiling, a[l]);
    DistinctOnce(tiling, a[k]);
    if a[k] == a[l] {
      CountTwice(a, k, l);
    }
  }

  lemma TilesDisjoint(index: int, size: int, a: Request, b: Request)
    requires 0 < size < U32 && a != b
    requires a in Tiling(index, 0, size) && b in Tiling(index, 0, size)
    ensures a.begin + a.length <= b.begin || b.begin + b.length <= a.begin
  {
    TilingShape(index, 0, size);
  }

  /** Received blocks have distinct requests, so any two sorts agree. */
  lemma SortsAgree(p: PieceState, t: seq<Piece>, u: seq<Piece>)
    requires Conserved(p) && Complete(p) && SortOf(t, p.received) && SortOf(u, p.received)
    ensures t == u
  {
    SortedIsTiling(p, t);
    SortedIsTiling(p, u);
    SortMembers(t, p.received);
    SortMembers(u, p.received);
    assert |t| == |Answers(t)| == |Answers(u)| == |u|;
    forall k | 0 <= k < |t|
      ensures t[k] == u[k]
    {
      assert Answered(t[k]) == Answers(t)[k] == Answers(u)[k] == Answered(u[k]);
      var i :| 0 <= i < |p.received| && p.received[i] == t[k];
      var j :| 0 <= j < |p.received| && p.received[j] == u[k];
      if i < j {
        DistinctBlocks(p, i, j);
      } else if j < i {
        DistinctBlocks(p, j, i);
      }
    }
  }

  /** If all received blocks repeat the bytes of `data`, a complete piece reassembles to `data`. */
  lemma HonestBlocksRebuild(p: PieceState, data: Bytes)
    requires Conserved(p) && Complete(p) && |data| == p.size
    requires forall m <- p.received :: Honest(m, data)
    ensures Assemble(p) == data
  {
    hide Conserved, Assemble, SortByBegin;
    SortByBeginSorts(p.received);
    OrderIndependent(p, SortByBegin(p.received));
    forall o | 0 <= o < p.size
      ensures Assemble(p)[o] == data[o]
    {
      assert Covered(p.received, o);
      var k :| 0 <= k < |p.received| && Covers(p.received[k], o);
      var m := p.received[k];
      assert Honest(m, Assemble(p)) && Honest(m, data);
      assert m.block[o - m.begin] == data[m.begin..m.begin + |m.block|][o - m.begin];
      assert m.block[o - m.begin] == Assemble(p)[m.begin..m.begin + |m.block|][o - m.begin];
    }
  }

  /** Sorting the received blocks in place, as the source does, disturbs nothing. */
  lemma SortingConserves(p: PieceState)
    requires Conserved(p) && Complete(p)
    ensures var q := p.(received := SortByBegin(p.received));
            Conserved(q) && Complete(q) && Assemble(q) == Assemble(p)
  {
    var q := p.(received := SortByBegin(p.received));
    SortByBeginSorts(p.received);
    AnswersFollow(q.received, p.received);
    SortMembers(q.received, p.received);
    forall r
      ensures Count(Answers(q.received), r) == Count(Flagged(p.inFlight, true), r)
    {
      assert Count(Answers(q.received), r) == Count(Answers(p.received), r);
    }
    ByteCountOrder(Answers(q.received), Answers(p.received));
    assert Conserved(q) by {
      forall r
        ensures Held(q, r) == Count(Tiling(q.index, 0, q.size), r) && Count(q.log.sent, r) == Explained(q, r)
      {
        assert Held(p, r) == Count(Tiling(p.index, 0, p.size), r) && Count(p.log.sent, r) == Explained(p, r);
      }
    }
    SortByBeginSorts(q.received);
    forall x
      ensures Count(SortByBegin(q.received), x) == Count(p.received, x)
    {
      assert Count(SortByBegin(q.received), x) == Count(q.received, x) == Count(p.received, x);
    }
    OrderIndependent(p, SortByBegin(q.received));
  }
}
