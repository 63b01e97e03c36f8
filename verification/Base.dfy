/** Bytes, machine widths, sums and concatenations shared by every module. */
module Base {

  type byte = x: int | 0 <= x < 256

  type Bytes = seq<byte>

  /** One past the largest `uint32`, and one past the largest `int64`. */
  const U32: int := 0x1_0000_0000
  const I64: int := 0x8000_0000_0000_0000

  datatype Option<+T> = None | Some(value: T)

  /** The bytes of a text in ASCII. */
  function Ascii(text: string): Bytes
    requires forall i :: 0 <= i < |text| ==> (text[i] as int) < 256
  {
    seq(|text|, i requires 0 <= i < |text| => text[i] as int)
  }

  function Min(a: int, b: int): int {
    if a < b then a else b
  }

  /** The conversion `uint32(x)`, which keeps the low 32 bits. */
  function ToU32(x: int): int {
    x % U32
  }

  function Sum(s: seq<int>): int {
    if |s| == 0 then 0 else Sum(s[..|s| - 1]) + s[|s| - 1]
  }

  function Concat<T>(parts: seq<seq<T>>): seq<T> {
    if |parts| == 0 then [] else Concat(parts[..|parts| - 1]) + parts[|parts| - 1]
  }

  function Lengths<T>(parts: seq<seq<T>>): seq<int> {
    seq(|parts|, i requires 0 <= i < |parts| => |parts[i]|)
  }

  lemma {:induction false} SumSplit(a: seq<int>, b: seq<int>)
    ensures Sum(a + b) == Sum(a) + Sum(b)
  {
    if |b| == 0 {
      assert a + b == a;
    } else {
      assert (a + b)[..|a + b| - 1] == a + b[..|b| - 1];
      SumSplit(a, b[..|b| - 1]);
    }
  }

  lemma {:induction false} SumUpdate(s: seq<int>, k: nat, x: int)
    requires k < |s|
    ensures Sum(s[k := x]) == Sum(s) - s[k] + x
  {
    if k == |s| - 1 {
      assert s[k := x][..k] == s[..k];
    } else {
      assert s[k := x][..|s| - 1] == s[..|s| - 1][k := x];
      SumUpdate(s[..|s| - 1], k, x);
    }
  }

  function Differences(a: seq<int>, b: seq<int>): seq<int>
    requires |a| == |b|
  {
    seq(|a|, i requires 0 <= i < |a| => a[i] - b[i])
  }

  lemma {:induction false} SumDifference(a: seq<int>, b: seq<int>)
    requires |a| == |b|
    ensures Sum(Differences(a, b)) == Sum(a) - Sum(b)
  {
    if |a| > 0 {
      var m := |a| - 1;
      SumDifference(a[..m], b[..m]);
      assert Differences(a, b)[..m] == Differences(a[..m], b[..m]);
    }
  }

  /** A pointwise bound is a bound on the sums, and the sums agree only if every entry does. */
  lemma {:induction false} SumDominated(a: seq<int>, b: seq<int>)
    requires |a| == |b| && forall i :: 0 <= i < |a| ==> a[i] <= b[i]
    ensures Sum(a) <= Sum(b)
    ensures Sum(a) == Sum(b) <==> a == b
  {
    if |a| > 0 {
      var m := |a| - 1;
      SumDominated(a[..m], b[..m]);
      assert a == a[..m] + [a[m]] && b == b[..m] + [b[m]];
    }
  }

  lemma {:induction false} SumNonNegative(a: seq<int>)
    requires forall i :: 0 <= i < |a| ==> 0 <= a[i]
    ensures 0 <= Sum(a)
    ensures forall i :: 0 <= i < |a| ==> a[i] <= Sum(a)
  {
    if |a| > 0 {
      SumNonNegative(a[..|a| - 1]);
    }
  }

  lemma {:induction false} ConcatSplit<T>(a: seq<seq<T>>, b: seq<seq<T>>)
    ensures Concat(a + b) == Concat(a) + Concat(b)
  {
    if |b| == 0 {
      assert a + b == a;
    } else {
      assert (a + b)[..|a + b| - 1] == a + b[..|b| - 1];
      ConcatSplit(a, b[..|b| - 1]);
    }
  }

  lemma {:induction false} ConcatLength<T>(parts: seq<seq<T>>)
    ensures |Concat(parts)| == Sum(Lengths(parts))
  {
    if |parts| > 0 {
      ConcatLength(parts[..|parts| - 1]);
      assert Lengths(parts)[..|parts| - 1] == Lengths(parts[..|parts| - 1]);
    }
  }

  // ---------- Counting occurrences ----------

  /** How often `x` occurs in `s`; the same number as `multiset(s)[x]` (`CountIsMultiset`). */
  function Count<T(==)>(s: seq<T>, x: T): nat {
    if |s| == 0 then 0 else Count(s[..|s| - 1], x) + if s[|s| - 1] == x then 1 else 0
  }

  lemma CountSnoc<T>(s: seq<T>, y: T, x: T)
    ensures Count(s + [y], x) == Count(s, x) + if y == x then 1 else 0
  {
    assert (s + [y])[..|s|] == s;
  }

  lemma {:induction false} CountSplit<T>(a: seq<T>, b: seq<T>, x: T)
    ensures Count(a + b, x) == Count(a, x) + Count(b, x)
  {
    if |b| == 0 {
      assert a + b == a;
    } else {
      assert (a + b)[..|a + b| - 1] == a + b[..|b| - 1];
      CountSplit(a, b[..|b| - 1], x);
    }
  }

  lemma {:induction false} CountMember<T>(s: seq<T>, x: T)
    ensures Count(s, x) > 0 <==> x in s
  {
    if |s| > 0 {
      CountMember(s[..|s| - 1], x);
      assert s == s[..|s| - 1] + [s[|s| - 1]];
    }
  }

  /** Two positions holding the same element count twice. */
  lemma CountTwice<T>(s: seq<T>, k: nat, l: nat)
    requires k < l < |s| && s[k] == s[l]
    ensures Count(s, s[k]) >= 2
  {
    CountMember(s[..l], s[k]);
    CountSnoc(s[..l], s[l], s[k]);
    assert s == (s[..l] + [s[l]]) + s[l + 1..];
    CountSplit(s[..l] + [s[l]], s[l + 1..], s[k]);
  }

  lemma {:induction false} CountIsMultiset<T>(s: seq<T>)
    ensures forall x :: Count(s, x) == multiset(s)[x]
  {
    if |s| > 0 {
      CountIsMultiset(s[..|s| - 1]);
      assert s == s[..|s| - 1] + [s[|s| - 1]];
    }
  }

  /** Two lists with the same elements, each as often. */
  ghost predicate SameElements<T(!new)>(a: seq<T>, b: seq<T>) {
    forall x :: Count(a, x) == Count(b, x)
  }

  /** Taking one occurrence of `x` out of `s`. */
  lemma RemoveOne<T>(s: seq<T>, x: T) returns (j: nat)
    requires Count(s, x) > 0
    ensures j < |s| && s[j] == x
    ensures forall y :: Count(s[..j] + s[j + 1..], y) == Count(s, y) - if y == x then 1 else 0
  {
    CountMember(s, x);
    j :| j < |s| && s[j] == x;
    forall y
      ensures Count(s[..j] + s[j + 1..], y) == Count(s, y) - if y == x then 1 else 0
    {
      CountSplit(s[..j], s[j + 1..], y);
      CountSnoc(s[..j], x, y);
      assert s == (s[..j] + [x]) + s[j + 1..];
      CountSplit(s[..j] + [x], s[j + 1..], y);
    }
  }

  lemma {:induction false} SameElementsLength<T(!new)>(a: seq<T>, b: seq<T>)
    requires SameElements(a, b)
    ensures |a| == |b|
    decreases |a|
  {
    if |a| == 0 {
      if |b| > 0 {
        assert Count(a, b[0]) == 0;
        CountMember(b, b[0]);
      }
    } else {
      var m := |a| - 1;
      assert Count(a, a[m]) == Count(b, a[m]);
      CountMember(a, a[m]);
      var j := RemoveOne(b, a[m]);
      forall y
        ensures Count(a[..m], y) == Count(b[..j] + b[j + 1..], y)
      {
        assert Count(a, y) == Count(b, y);
      }
      SameElementsLength(a[..m], b[..j] + b[j + 1..]);
    }
  }

  lemma SameElementsMultiset<T(!new)>(a: seq<T>, b: seq<T>)
    ensures SameElements(a, b) <==> multiset(a) == multiset(b)
  {
    CountIsMultiset(a);
    CountIsMultiset(b);
    if SameElements(a, b) {
      forall x
        ensures multiset(a)[x] == multiset(b)[x]
      {
        assert Count(a, x) == Count(b, x);
      }
    } else {
      var x :| Count(a, x) != Count(b, x);
      assert multiset(a)[x] != multiset(b)[x];
    }
  }
}
