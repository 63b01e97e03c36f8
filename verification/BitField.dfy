/** The packed bitfield, most significant bit first, and the set of indexes it stands for. */
module BitField {
  import opened Base

  // ---------- Bytes as a set ----------

  /** `1 << (7 - i % 8)`. */
  function Mask(i: nat): bv8 {
    (1 as bv8) << (7 - i % 8)
  }

  predicate Bit(b: seq<bv8>, i: nat)
    requires i / 8 < |b|
  {
    b[i / 8] & Mask(i) != 0
  }

  function WithBit(b: seq<bv8>, i: nat): seq<bv8>
    requires i / 8 < |b|
  {
    b[i / 8 := b[i / 8] | Mask(i)]
  }

  /** Every index whose bit is set, spare bits at the end included. */
  function Marked(b: seq<bv8>): set<nat> {
    set i: nat | i < 8 * |b| && Bit(b, i)
  }

  lemma MaskTable(i: nat)
    ensures Mask(i) == match i % 8
                       case 0 => 0x80 case 1 => 0x40 case 2 => 0x20 case 3 => 0x10
                       case 4 => 0x08 case 5 => 0x04 case 6 => 0x02 case _ => 0x01
  {
  }

  /** Index `8 q + r` is the bit of byte `q` that has `r` more significant ones before it. */
  lemma BitExact(b: seq<bv8>, q: nat, r: nat)
    requires q < |b| && r < 8
    ensures Bit(b, 8 * q + r) <==> b[q] & (match r
                                           case 0 => 0x80 case 1 => 0x40 case 2 => 0x20 case 3 => 0x10
                                           case 4 => 0x08 case 5 => 0x04 case 6 => 0x02 case _ => 0x01) != 0
  {
    MaskTable(8 * q + r);
  }

  lemma MaskOnce(x: bv8, i: nat, j: nat)
    ensures (x | Mask(i)) & Mask(j) != 0 <==> i % 8 == j % 8 || x & Mask(j) != 0
  {
    MaskTable(i);
    MaskTable(j);
  }

  lemma WithBitMarks(b: seq<bv8>, i: nat)
    requires i / 8 < |b|
    ensures Marked(WithBit(b, i)) == Marked(b) + {i}
  {
    forall j: nat | j < 8 * |b|
      ensures Bit(WithBit(b, i), j) <==> j == i || Bit(b, j)
    {
      if j / 8 == i / 8 {
        MaskOnce(b[i / 8], i, j);
      }
    }
  }

  /** The indexes below `n` whose bit is `value`, as the source's listing loops find them. */
  function Listing(b: seq<bv8>, n: nat, value: bool): seq<nat>
    requires n <= 8 * |b|
  {
    if n == 0 then []
    else if Bit(b, n - 1) == value then Listing(b, n - 1, value) + [n - 1]
    else Listing(b, n - 1, value)
  }

  /** A listing is strictly ascending and contains exactly the indexes it should. */
  lemma {:induction false} ListingExact(b: seq<bv8>, n: nat, value: bool)
    requires n <= 8 * |b|
    ensures var l := Listing(b, n, value);
            && (forall j, k :: 0 <= j < k < |l| ==> l[j] < l[k])
            && (forall i: nat :: i in l <==> i < n && Bit(b, i) == value)
  {
    hide Bit;
    if n > 0 {
      var before := Listing(b, n - 1, value);
      ListingExact(b, n - 1, value);
      assert forall j :: 0 <= j < |before| ==> before[j] in before;
      forall i: nat
        ensures i in before + [n - 1] <==> i in before || i == n - 1
      {
      }
    }
  }

  /** Missing and existing pieces are disjoint and together are 0 to n-1, whatever the spare bits. */
  lemma ListingsPartition(b: seq<bv8>, n: nat)
    requires n <= 8 * |b|
    ensures var missing, existing := Listing(b, n, false), Listing(b, n, true);
            forall i: nat :: (i in missing <==> i < n && i !in Marked(b)) && (i in existing <==> i < n && i in Marked(b))
  {
    ListingExact(b, n, false);
    ListingExact(b, n, true);
  }

  // ---------- Sequences of operations ----------

  datatype Op = Set(i: nat) | SetWithCheck(i: nat) | Overwrite(other: seq<bv8>)

  /** `None` where the source panics. */
  function Apply(b: seq<bv8>, n: nat, op: Op): Option<seq<bv8>> {
    match op
    case Set(i) => if i / 8 < |b| then Some(WithBit(b, i)) else None
    case SetWithCheck(i) => if i < n && i / 8 < |b| then Some(WithBit(b, i)) else Some(b)
    case Overwrite(other) => if |other| == |b| then Some(other) else None
  }

  /** The same operation on a plain set of indexes. */
  function ApplyToSet(marked: set<nat>, size: nat, n: nat, op: Op): Option<set<nat>> {
    match op
    case Set(i) => if i < 8 * size then Some(marked + {i}) else None
    case SetWithCheck(i) => if i < n && i < 8 * size then Some(marked + {i}) else Some(marked)
    case Overwrite(other) => if |other| == size then Some(Marked(other)) else None
  }

  /** Membership in a set of indexes kept in `size` bytes; `None` for an index that has no bit. */
  function Lookup(marked: set<nat>, size: nat, i: nat): Option<bool> {
    if i < 8 * size then Some(i in marked) else None
  }

  function Run(b: seq<bv8>, n: nat, ops: seq<Op>): Option<seq<bv8>> {
    if |ops| == 0 then Some(b)
    else
      match Run(b, n, ops[..|ops| - 1])
      case None => None
      case Some(c) => Apply(c, n, ops[|ops| - 1])
  }

  function RunOnSet(marked: set<nat>, size: nat, n: nat, ops: seq<Op>): Option<set<nat>> {
    if |ops| == 0 then Some(marked)
    else
      match RunOnSet(marked, size, n, ops[..|ops| - 1])
      case None => None
      case Some(m) => ApplyToSet(m, size, n, ops[|ops| - 1])
  }

  /** Over any sequence of operations the bytes and the plain set agree, panics included. */
  lemma {:induction false} RefinesSet(b: seq<bv8>, n: nat, ops: seq<Op>)
    ensures Run(b, n, ops).Some? <==> RunOnSet(Marked(b), |b|, n, ops).Some?
    ensures Run(b, n, ops).Some? ==>
              && |Run(b, n, ops).value| == |b|
              && Marked(Run(b, n, ops).value) == RunOnSet(Marked(b), |b|, n, ops).value
  {
    if |ops| > 0 {
      RefinesSet(b, n, ops[..|ops| - 1]);
      match Run(b, n, ops[..|ops| - 1])
      case None =>
      case Some(c) =>
        var op := ops[|ops| - 1];
        if !op.Overwrite? && op.i / 8 < |c| {
          WithBitMarks(c, op.i);
        }
    }
  }

  // ---------- The mutable bitfield ----------

  class BitField {
    var b: array<bv8>
    const numPieces: nat

    /** Enough bytes for the pieces, whose indexes fit in 32 bits. */
    ghost predicate Valid()
      reads this
    {
      numPieces <= U32 && b.Length == (numPieces + 7) / 8
    }

    constructor (numPieces: nat)
      requires numPieces <= U32
      ensures Valid() && fresh(b) && this.numPieces == numPieces && Marked(b[..]) == {}
    {
      this.numPieces := numPieces;
      b := new bv8[(numPieces + 7) / 8](i => 0);
    }

    /** The pieces whose bit is `value`, in ascending order. */
    method List(value: bool) returns (pieces: seq<nat>)
      requires Valid()
      ensures pieces == Listing(b[..], numPieces, value)
    {
      hide Bit;
      pieces := [];
      for i := 0 to numPieces
        invariant pieces == Listing(b[..], i, value)
      {
        var idx := ToU32(i);
        assert idx == i;
        if Bit(b[..], idx) == value {
          pieces := pieces + [idx];
        }
      }
    }

    method MissingPieces() returns (pieces: seq<nat>)
      requires Valid()
      ensures pieces == Listing(b[..], numPieces, false)
    {
      pieces := List(false);
    }

    method ExistingPieces() returns (pieces: seq<nat>)
      requires Valid()
      ensures pieces == Listing(b[..], numPieces, true)
    {
      pieces := List(true);
    }

    method Clone() returns (res: array<bv8>)
      ensures fresh(res) && res[..] == b[..]
    {
      res := new bv8[b.Length](i => 0);
      for k := 0 to b.Length
        invariant res[..k] == b[..k]
      {
        res[k] := b[k];
      }
    }

    /** Adopts the caller's array itself; refuses one of another length, where the source panics. */
    method Overwrite(other: array<bv8>) returns (ok: bool)
      requires Valid()
      modifies this
      ensures Valid() && ok == (other.Length == old(b).Length)
      ensures b == if ok then other else old(b)
    {
      ok := b.Length == other.Length;
      if ok {
        b := other;
      }
    }

    method SetWithCheck(idx: nat) returns (ok: bool)
      requires Valid()
      modifies b
      ensures ok == (idx < numPieces)
      ensures Some(b[..]) == Apply(old(b[..]), numPieces, Op.SetWithCheck(idx))
      ensures Marked(b[..]) == old(Marked(b[..])) + if ok then {idx} else {}
    {
      if idx >= numPieces {
        return false;
      }
      if idx / 8 > b.Length - 1 {
        return false;
      }
      WithBitMarks(b[..], idx);
      b[idx / 8] := b[idx / 8] | Mask(idx);
      return true;
    }

    /** Refuses an index past the last byte, where the source panics. */
    method Set(idx: nat) returns (ok: bool)
      requires Valid()
      modifies b
      ensures ok == Apply(old(b[..]), numPieces, Op.Set(idx)).Some?
      ensures b[..] == if ok then Apply(old(b[..]), numPieces, Op.Set(idx)).value else old(b[..])
      ensures Marked(b[..]) == old(Marked(b[..])) + if ok then {idx} else {}
    {
      if idx / 8 >= b.Length {
        return false;
      }
      WithBitMarks(b[..], idx);
      b[idx / 8] := b[idx / 8] | Mask(idx);
      return true;
    }

    /** `None` where the source panics. */
    method Check(idx: nat) returns (found: Option<bool>)
      ensures found == Lookup(Marked(b[..]), b.Length, idx)
    {
      if idx / 8 >= b.Length {
        return None;
      }
      return Some(b[idx / 8] & Mask(idx) != 0);
    }
  }
}
