/** Bencoded values, how they are printed, and what decoding a byte sequence at a position yields. */
module Bencode {
  import opened Base

  datatype Value =
    | Integer(i: int)
    | ByteString(s: Bytes)
    | List(items: seq<Value>)
    | Dictionary(dict: map<Bytes, Value>)

  const DELIMITER: byte := 58
  const INTEGER: byte := 105
  const LIST: byte := 108
  const DICTIONARY: byte := 100
  const END: byte := 101
  const ZERO: byte := 48
  const MINUS: byte := 45
  const PLUS: byte := 43

  predicate IsDigit(b: byte) {
    48 <= b <= 57
  }

  /** What Go's `int64` and string lengths can hold. */
  ghost predicate Valid(v: Value) {
    match v
    case Integer(i) => -I64 <= i < I64
    case ByteString(s) => |s| < I64
    case List(items) => forall x <- items :: Valid(x)
    case Dictionary(dict) => forall k <- dict :: |k| < I64 && Valid(dict[k])
  }

  // ---------- Printing ----------

  function Digit(n: nat): byte
    requires n < 10
  {
    48 + n
  }

  function Decimal(n: nat): Bytes {
    if n < 10 then [Digit(n)] else Decimal(n / 10) + [Digit(n % 10)]
  }

  function Number(i: int): Bytes {
    if i < 0 then [MINUS] + Decimal(-i) else Decimal(i)
  }

  /** Go's order on strings: byte by byte, and a proper prefix first. */
  predicate Less(a: Bytes, b: Bytes) {
    |b| > 0 && (|a| == 0 || a[0] < b[0] || (a[0] == b[0] && Less(a[1..], b[1..])))
  }

  ghost predicate Ascending(keys: seq<Bytes>) {
    forall i, j :: 0 <= i < j < |keys| ==> Less(keys[i], keys[j])
  }

  function StringLiteral(s: Bytes): Bytes {
    Decimal(|s|) + [DELIMITER] + s
  }

  ghost predicate Least(k: Bytes, keys: set<Bytes>) {
    k in keys && forall j <- keys :: j == k || Less(k, j)
  }

  /** The keys of a map in ascending order. */
  ghost function SortedKeys(keys: set<Bytes>): seq<Bytes> {
    if keys == {} then []
    else
      LeastExists(keys);
      var k :| Least(k, keys);
      [k] + SortedKeys(keys - {k})
  }

  ghost function Literal(v: Value): Bytes
    decreases v, 0, 0
  {
    match v
    case Integer(i) => [INTEGER] + Number(i) + [END]
    case ByteString(s) => StringLiteral(s)
    case List(items) => [LIST] + ItemsLiteral(items) + [END]
    case Dictionary(dict) =>
      SortedKeysShape(dict.Keys);
      [DICTIONARY] + EntriesLiteral(v, SortedKeys(dict.Keys)) + [END]
  }

  ghost function ItemsLiteral(items: seq<Value>): Bytes
    decreases items, 1, 0
  {
    if |items| == 0 then [] else Literal(items[0]) + ItemsLiteral(items[1..])
  }

  ghost function EntriesLiteral(v: Value, keys: seq<Bytes>): Bytes
    requires v.Dictionary? && forall k <- keys :: k in v.dict
    decreases v, 0, 0, |keys|
  {
    if |keys| == 0 then []
    else StringLiteral(keys[0]) + Literal(v.dict[keys[0]]) + EntriesLiteral(v, keys[1..])
  }

  // ---------- Decoding ----------

  // The input is a Go slice: `src` are its elements and `spare` is what lies behind them up to its
  // capacity. Indexing stops at the length, but slicing reaches into the spare bytes.

  /**
    A value and the position of its last byte, or an error, or an index outside the input or a
    slice outside its capacity, which the source does not check for and Go panics over.
   */
  datatype Outcome<T> = Ok(value: T, end: nat) | Bad | OutOfBounds

  /** The first position from `curr` on that holds `tok`. */
  function AdvanceUntil(src: Bytes, curr: nat, tok: byte): Option<nat>
    requires curr <= |src|
    decreases |src| - curr
  {
    if curr == |src| then None
    else if src[curr] == tok then Some(curr)
    else AdvanceUntil(src, curr + 1, tok)
  }

  lemma {:induction false} AdvanceUntilFinds(src: Bytes, curr: nat, tok: byte)
    requires curr <= |src|
    ensures AdvanceUntil(src, curr, tok).Some? ==>
              var k := AdvanceUntil(src, curr, tok).value;
              curr <= k < |src| && src[k] == tok && forall j :: curr <= j < k ==> src[j] != tok
    decreases |src| - curr
  {
    if curr < |src| && src[curr] != tok {
      AdvanceUntilFinds(src, curr + 1, tok);
    }
  }

  function DigitValue(b: byte): (d: nat)
    requires IsDigit(b)
    ensures d < 10 && Digit(d) == b
  {
    var x: int := b;
    x - 48
  }

  function ParseDigits(s: Bytes): Option<nat> {
    if |s| == 0 || !IsDigit(s[|s| - 1]) then None
    else
      var d := DigitValue(s[|s| - 1]);
      if |s| == 1 then Some(d)
      else
        match ParseDigits(s[..|s| - 1])
        case None => None
        case Some(n) => Some(10 * n + d)
  }

  /** `strconv.ParseInt(s, 10, 64)`. */
  function ParseInt(s: Bytes): Option<int> {
    if |s| == 0 then None
    else
      match ParseDigits(if s[0] == MINUS || s[0] == PLUS then s[1..] else s)
      case None => None
      case Some(n) =>
        var i: int := n;
        if s[0] == MINUS then (if i <= I64 then Some(-i) else None)
        else if i < I64 then Some(i) else None
  }

  function DecodeString(src: Bytes, spare: Bytes, position: nat): (r: Outcome<Bytes>)
    requires position <= |src|
    ensures r.Ok? ==> position <= r.end < |src| + |spare|
  {
    AdvanceUntilFinds(src, position, DELIMITER);
    match AdvanceUntil(src, position, DELIMITER)
    case None => Bad
    case Some(delim) =>
      match ParseInt(src[position..delim])
      case None => Bad
      case Some(l) =>
        var start := delim + 1;
        if l < 0 || start + l > |src| + |spare| then OutOfBounds
        else Ok((src + spare)[start..start + l], start + l - 1)
  }

  function DecodeInteger(src: Bytes, position: nat): (r: Outcome<int>)
    requires position < |src|
    ensures r.Ok? ==> position < r.end < |src|
  {
    var start := position + 1;
    if src[position] != INTEGER then Bad
    else
      AdvanceUntilFinds(src, start, END);
      match AdvanceUntil(src, start, END)
      case None => Bad
      case Some(end) =>
        if end - start > 1 && src[start] == ZERO then Bad
        else
          match ParseInt(src[start..end])
          case None => Bad
          case Some(i) => Ok(i, end)
  }

  /** Picks the kind of value from its first byte and decodes it. Only a string can end outside the input. */
  function DecodeValue(src: Bytes, spare: Bytes, position: nat): (r: Outcome<Value>)
    requires position < |src|
    ensures r.Ok? ==> position <= r.end < |src| + |spare|
    ensures r.Ok? && |src| <= r.end ==> r.value.ByteString?
    decreases |src| - position, 1
  {
    var tok := src[position];
    if tok == LIST then
      match ListFrom(src, spare, position, [])
      case Ok(items, end) => Ok(List(items), end)
      case Bad => Bad
      case OutOfBounds => OutOfBounds
    else if tok == DICTIONARY then
      match DictionaryFrom(src, spare, position, map[])
      case Ok(dict, end) => Ok(Dictionary(dict), end)
      case Bad => Bad
      case OutOfBounds => OutOfBounds
    else if tok == INTEGER then
      match DecodeInteger(src, position)
      case Ok(i, end) => Ok(Integer(i), end)
      case Bad => Bad
      case OutOfBounds => OutOfBounds
    else if IsDigit(tok) then
      match DecodeString(src, spare, position)
      case Ok(s, end) => Ok(ByteString(s), end)
      case Bad => Bad
      case OutOfBounds => OutOfBounds
    else Bad
  }

  /** How much input is left behind a position. */
  function Behind(src: Bytes, position: nat): nat {
    if position < |src| then |src| - position else 0
  }

  /** The list loop, standing on the opening byte or the last byte of an item. */
  function ListFrom(src: Bytes, spare: Bytes, position: nat, items: seq<Value>): (r: Outcome<seq<Value>>)
    ensures r.Ok? ==> position < r.end < |src|
    decreases Behind(src, position), 0
  {
    if position == |src| - 1 then Bad
    else if position + 1 >= |src| then OutOfBounds
    else if src[position + 1] == END then Ok(items, position + 1)
    else
      match DecodeValue(src, spare, position + 1)
      case Ok(v, end) => ListFrom(src, spare, end, items + [v])
      case Bad => Bad
      case OutOfBounds => OutOfBounds
  }

  /** The items the loop has gathered when it stops, whatever the outcome. */
  function Gathered(src: Bytes, spare: Bytes, position: nat, items: seq<Value>): seq<Value>
    decreases Behind(src, position)
  {
    if position + 1 >= |src| || src[position + 1] == END then items
    else
      match DecodeValue(src, spare, position + 1)
      case Ok(v, end) => Gathered(src, spare, end, items + [v])
      case Bad => items
      case OutOfBounds => items
  }

  /** The dictionary loop, standing on the opening byte or the last byte of an entry. */
  function DictionaryFrom(src: Bytes, spare: Bytes, position: nat, dict: map<Bytes, Value>): (r: Outcome<map<Bytes, Value>>)
    ensures r.Ok? ==> position < r.end < |src|
    decreases Behind(src, position), 0
  {
    if position == |src| - 1 then Bad
    else if position + 1 >= |src| then OutOfBounds
    else if src[position + 1] == END then Ok(dict, position + 1)
    else
      match DecodeString(src, spare, position + 1)
      case Bad => Bad
      case OutOfBounds => OutOfBounds
      case Ok(k, last) =>
        if last + 1 >= |src| then OutOfBounds
        else
          match DecodeValue(src, spare, last + 1)
          case Ok(v, end) => DictionaryFrom(src, spare, end, dict[k := v])
          case Bad => Bad
          case OutOfBounds => OutOfBounds
  }

  /** An entry the dictionary loop has read: its key at `at`, its value from `from` to `end`. */
  datatype Visit = Visit(at: nat, key: Bytes, from: nat, end: nat, value: Value)

  /** The entries the loop reads from a position on, in order, until it stops. */
  function Visits(src: Bytes, spare: Bytes, position: nat): seq<Visit>
    decreases Behind(src, position)
  {
    if position + 1 >= |src| || src[position + 1] == END then []
    else
      var key := DecodeString(src, spare, position + 1);
      if !key.Ok? || key.end + 1 >= |src| then []
      else
        var value := DecodeValue(src, spare, key.end + 1);
        if !value.Ok? then []
        else [Visit(position + 1, key.value, key.end + 1, value.end, value.value)] + Visits(src, spare, value.end)
  }

  /** A map after entries were inserted in order, so that the last one under a key wins. */
  function InsertVisits(dict: map<Bytes, Value>, visits: seq<Visit>): map<Bytes, Value>
    decreases |visits|
  {
    if |visits| == 0 then dict
    else InsertVisits(dict[visits[0].key := visits[0].value], visits[1..])
  }

  // ---------- The order of keys ----------

  lemma {:induction false} LessTransitive(a: Bytes, b: Bytes, c: Bytes)
    requires Less(a, b) && Less(b, c)
    ensures Less(a, c)
  {
    if |a| > 0 && a[0] == b[0] == c[0] {
      LessTransitive(a[1..], b[1..], c[1..]);
    }
  }

  lemma {:induction false} LessTotal(a: Bytes, b: Bytes)
    ensures a == b || Less(a, b) || Less(b, a)
    ensures !(Less(a, b) && Less(b, a)) && !Less(a, a)
  {
    if |a| > 0 {
      LessTotal(a[1..], a[1..]);
      if |b| > 0 && a[0] == b[0] {
        LessTotal(a[1..], b[1..]);
        if a[1..] == b[1..] {
          assert a == [a[0]] + a[1..] && b == [b[0]] + b[1..];
        }
      }
    }
  }

  /** The two agree on their first `n` bytes, and then the first ends or has the smaller byte. */
  predicate ComesFirst(a: Bytes, b: Bytes, n: nat) {
    && n <= |a| && n < |b| && (forall i :: 0 <= i < n ==> a[i] == b[i])
    && (n == |a| || a[n] < b[n])
  }

  /** The order is the one of Go's strings: the first different byte decides, else the length. */
  lemma {:induction false} LessExact(a: Bytes, b: Bytes)
    ensures Less(a, b) <==> exists n: nat :: ComesFirst(a, b, n)
    decreases |a|
  {
    if Less(a, b) {
      if |a| == 0 || a[0] < b[0] {
        assert ComesFirst(a, b, 0);
      } else {
        LessExact(a[1..], b[1..]);
        var n: nat :| ComesFirst(a[1..], b[1..], n);
        forall i | 0 <= i < n + 1
          ensures a[i] == b[i]
        {
          assert i > 0 ==> a[1..][i - 1] == b[1..][i - 1];
        }
        assert ComesFirst(a, b, n + 1);
      }
    }
    if n: nat :| ComesFirst(a, b, n) {
      if n > 0 {
        assert a[0] == b[0];
        forall i | 0 <= i < n - 1
          ensures a[1..][i] == b[1..][i]
        {
          assert a[i + 1] == b[i + 1];
        }
        assert ComesFirst(a[1..], b[1..], n - 1);
        LessExact(a[1..], b[1..]);
      }
    }
  }

  lemma LeastExtends(k: Bytes, m: Bytes, keys: set<Bytes>)
    requires k in keys && Least(m, keys - {k})
    ensures Least(if Less(k, m) then k else m, keys)
  {
    LessTotal(k, m);
    forall j | j in keys && j != k && j != m && Less(k, m)
      ensures Less(k, j)
    {
      LessTransitive(k, m, j);
    }
    hide Less;
  }

  lemma {:induction false} LeastExists(keys: set<Bytes>)
    requires keys != {}
    ensures exists k :: Least(k, keys)
    decreases |keys|
  {
    hide Less;
    var k :| k in keys;
    if keys - {k} == {} {
      assert keys == {k};
      assert Least(k, keys);
    } else {
      LeastExists(keys - {k});
      var m :| Least(m, keys - {k});
      LeastExtends(k, m, keys);
    }
  }

  lemma {:induction false} SortedKeysShape(keys: set<Bytes>)
    ensures Ascending(SortedKeys(keys))
    ensures forall k :: k in SortedKeys(keys) <==> k in keys
    ensures |SortedKeys(keys)| == |keys|
    decreases |keys|
  {
    if keys != {} {
      hide Less;
      var sorted := SortedKeys(keys);
      var k := sorted[0];
      assert Least(k, keys) && sorted == [k] + SortedKeys(keys - {k});
      SortedKeysShape(keys - {k});
      assert forall j :: 1 <= j < |sorted| ==> sorted[j] in SortedKeys(keys - {k});
    }
  }

  /** Only one list enumerates a set of keys in ascending order. */
  lemma {:induction false} SortedKeysUnique(list: seq<Bytes>, keys: set<Bytes>)
    requires Ascending(list) && forall k :: k in list <==> k in keys
    ensures list == SortedKeys(keys)
    decreases |list|
  {
    hide Less;
    if |list| == 0 {
      assert keys == {};
    } else {
      assert list[0] in keys;
      LeastExists(keys);
      var sorted := SortedKeys(keys);
      var k := sorted[0];
      assert Least(k, keys) && sorted == [k] + SortedKeys(keys - {k});
      var i :| 0 <= i < |list| && list[i] == k;
      LessTotal(list[0], k);
      forall x
        ensures x in list[1..] <==> x in keys - {k}
      {
        if x in list[1..] {
          var j :| 1 <= j < |list| && list[j] == x;
          LessTotal(list[0], x);
        }
      }
      SortedKeysUnique(list[1..], keys - {k});
      assert list == [list[0]] + list[1..];
    }
  }
}
