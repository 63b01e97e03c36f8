/**
  Decoding undoes printing, wherever the printed value stands in a longer input.
  The decoder has no bounds checks of its own, so what is printed is also what it is safe on,
  whatever the capacity of the slice it is given.
 */
module BencodeRoundTrip {
  import opened Base
  import opened Bencode

  /** `src` holds `part` at position `p`. */
  predicate At(src: Bytes, p: nat, part: Bytes) {
    p + |part| <= |src| && src[p..p + |part|] == part
  }

  lemma AtFits(src: Bytes, p: nat, part: Bytes)
    requires At(src, p, part)
    ensures p + |part| <= |src|
  {
  }

  lemma AtSplit(src: Bytes, p: nat, a: Bytes, b: Bytes)
    requires At(src, p, a + b)
    ensures At(src, p, a) && At(src, p + |a|, b)
    ensures forall i :: 0 <= i < |a| ==> src[p + i] == a[i]
    ensures forall i :: 0 <= i < |b| ==> src[p + |a| + i] == b[i]
  {
    var whole := src[p..p + |a + b|];
    assert whole[..|a|] == a && whole[|a|..] == b;
    assert src[p..p + |a|] == whole[..|a|];
    assert src[p + |a|..p + |a| + |b|] == whole[|a|..];
    forall i | 0 <= i < |a|
      ensures src[p + i] == a[i]
    {
      assert src[p + i] == whole[i];
    }
    forall i | 0 <= i < |b|
      ensures src[p + |a| + i] == b[i]
    {
      assert src[p + |a| + i] == whole[|a| + i];
    }
  }

  // ---------- Numbers ----------

  predicate AllDigits(s: Bytes) {
    forall i :: 0 <= i < |s| ==> IsDigit(s[i])
  }

  /** A numeral: digits without a leading zero, except zero itself. */
  predicate Numeral(s: Bytes) {
    |s| > 0 && AllDigits(s) && (|s| == 1 || s[0] != ZERO)
  }

  lemma {:induction false} DecimalIsNumeral(n: nat)
    ensures Numeral(Decimal(n)) && ParseDigits(Decimal(n)) == Some(n)
    ensures Decimal(n)[0] == ZERO <==> n == 0
  {
    if n >= 10 {
      DecimalIsNumeral(n / 10);
      var front, last := Decimal(n / 10), Digit(n % 10);
      assert Decimal(n) == front + [last];
      assert (front + [last])[..|front|] == front;
      assert DigitValue(last) == n % 10;
    } else {
      assert DigitValue(Digit(n)) == n;
    }
  }

  /** Every digit string denotes a number, and a numeral is how that number prints. */
  lemma {:induction false} NumeralIsDecimal(s: Bytes)
    requires |s| > 0 && AllDigits(s)
    ensures ParseDigits(s).Some?
    ensures s[0] != ZERO ==> ParseDigits(s).value > 0
    ensures Numeral(s) ==> Decimal(ParseDigits(s).value) == s
  {
    if |s| > 1 {
      var front, last := s[..|s| - 1], s[|s| - 1];
      NumeralIsDecimal(front);
      assert s == front + [last];
      var n := ParseDigits(front).value;
      var d := DigitValue(last);
      assert ParseDigits(s) == Some(10 * n + d);
      assert (10 * n + d) / 10 == n && (10 * n + d) % 10 == d;
    }
  }

  lemma NumberParses(i: int)
    requires -I64 <= i < I64
    ensures ParseInt(Number(i)) == Some(i)
    ensures forall k :: 0 <= k < |Number(i)| ==> Number(i)[k] == MINUS || IsDigit(Number(i)[k])
    ensures |Number(i)| > 1 ==> Number(i)[0] != ZERO
    ensures |Number(i)| > 0
  {
    hide Decimal, ParseDigits;
    if i < 0 {
      DecimalIsNumeral(-i);
      assert Number(i)[1..] == Decimal(-i);
    } else {
      DecimalIsNumeral(i);
    }
  }

  lemma {:induction false} AdvanceTo(src: Bytes, p: nat, k: nat, tok: byte)
    requires p <= k < |src| && src[k] == tok && forall j :: p <= j < k ==> src[j] != tok
    ensures AdvanceUntil(src, p, tok) == Some(k)
    decreases k - p
  {
    if p < k {
      AdvanceTo(src, p + 1, k, tok);
    }
  }

  lemma StringRoundTrip(s: Bytes, src: Bytes, spare: Bytes, p: nat)
    requires |s| < I64 && At(src, p, StringLiteral(s))
    ensures DecodeString(src, spare, p) == Ok(s, p + |StringLiteral(s)| - 1)
  {
    hide Decimal, ParseDigits;
    var digits := Decimal(|s|);
    DecimalIsNumeral(|s|);
    AtSplit(src, p, digits + [DELIMITER], s);
    AtSplit(src, p, digits, [DELIMITER]);
    assert src[p + |digits|] == [DELIMITER][0];
    forall j | p <= j < p + |digits|
      ensures src[j] != DELIMITER
    {
      assert src[p + (j - p)] == digits[j - p];
    }
    AdvanceTo(src, p, p + |digits|, DELIMITER);
    assert IsDigit(digits[0]);
    assert ParseInt(digits) == Some(|s|);
    var start := p + |digits| + 1;
    assert (src + spare)[start..start + |s|] == src[start..start + |s|];
  }

  lemma IntegerRoundTrip(i: int, src: Bytes, p: nat)
    requires -I64 <= i < I64 && At(src, p, [INTEGER] + Number(i) + [END])
    ensures DecodeInteger(src, p) == Ok(i, p + |Number(i)| + 1)
  {
    var digits := Number(i);
    NumberParses(i);
    AtSplit(src, p, [INTEGER] + digits, [END]);
    AtSplit(src, p, [INTEGER], digits);
    assert src[p] == [INTEGER][0];
    var end := p + 1 + |digits|;
    assert src[end] == [END][0];
    forall j | p + 1 <= j < end
      ensures src[j] != END
    {
      assert src[p + 1 + (j - p - 1)] == digits[j - p - 1];
    }
    AdvanceTo(src, p + 1, end, END);
    assert src[p + 1] == digits[0];
  }

  // ---------- Values ----------

  lemma StringHead(s: Bytes)
    ensures |StringLiteral(s)| > 1 && IsDigit(StringLiteral(s)[0])
  {
    DecimalIsNumeral(|s|);
  }

  /** The first byte of a printed value says which kind it is, and is never the end marker. */
  lemma LiteralHead(v: Value)
    ensures |Literal(v)| > 1
    ensures match v
            case Integer(_) => Literal(v)[0] == INTEGER
            case ByteString(_) => IsDigit(Literal(v)[0])
            case List(_) => Literal(v)[0] == LIST
            case Dictionary(_) => Literal(v)[0] == DICTIONARY
  {
    if v.ByteString? {
      StringHead(v.s);
    }
  }

  /** `dict` after the entries of `v` under `keys` were inserted in turn. */
  ghost function Insert(dict: map<Bytes, Value>, v: Value, keys: seq<Bytes>): map<Bytes, Value>
    requires v.Dictionary? && forall k <- keys :: k in v.dict
    decreases |keys|
  {
    if |keys| == 0 then dict else Insert(dict[keys[0] := v.dict[keys[0]]], v, keys[1..])
  }

  lemma {:induction false} InsertAll(dict: map<Bytes, Value>, v: Value, keys: seq<Bytes>)
    requires v.Dictionary? && forall k <- keys :: k in v.dict
    ensures Insert(dict, v, keys) == map k | k in dict.Keys + (set x | x in keys) :: if k in keys then v.dict[k] else dict[k]
    decreases |keys|
  {
    if |keys| > 0 {
      InsertAll(dict[keys[0] := v.dict[keys[0]]], v, keys[1..]);
      assert keys == [keys[0]] + keys[1..];
    }
  }

  lemma InsertSorted(v: Value)
    requires v.Dictionary? && forall k <- SortedKeys(v.dict.Keys) :: k in v.dict
    ensures Insert(map[], v, SortedKeys(v.dict.Keys)) == v.dict
  {
    SortedKeysShape(v.dict.Keys);
    InsertAll(map[], v, SortedKeys(v.dict.Keys));
  }

  // One step of each decoding loop, and the dispatch on the first byte.

  lemma ItemStep(src: Bytes, spare: Bytes, p: nat, done: seq<Value>, v: Value, end: nat)
    requires p + 1 < |src| && src[p + 1] != END && DecodeValue(src, spare, p + 1) == Ok(v, end)
    ensures ListFrom(src, spare, p, done) == ListFrom(src, spare, end, done + [v])
  {
    hide DecodeValue;
  }

  lemma EntryStep(src: Bytes, spare: Bytes, p: nat, done: map<Bytes, Value>, k: Bytes, last: nat, v: Value, end: nat)
    requires p + 1 < |src| && src[p + 1] != END && DecodeString(src, spare, p + 1) == Ok(k, last)
    requires last + 1 < |src| && DecodeValue(src, spare, last + 1) == Ok(v, end)
    ensures DictionaryFrom(src, spare, p, done) == DictionaryFrom(src, spare, end, done[k := v])
  {
    hide DecodeValue, DecodeString;
  }

  lemma Dispatch(src: Bytes, spare: Bytes, p: nat)
    requires p < |src|
    ensures src[p] == INTEGER && DecodeInteger(src, p).Ok? ==>
              DecodeValue(src, spare, p) == Ok(Integer(DecodeInteger(src, p).value), DecodeInteger(src, p).end)
    ensures IsDigit(src[p]) && DecodeString(src, spare, p).Ok? ==>
              DecodeValue(src, spare, p) == Ok(ByteString(DecodeString(src, spare, p).value), DecodeString(src, spare, p).end)
    ensures src[p] == LIST && ListFrom(src, spare, p, []).Ok? ==>
              DecodeValue(src, spare, p) == Ok(List(ListFrom(src, spare, p, []).value), ListFrom(src, spare, p, []).end)
    ensures src[p] == DICTIONARY && DictionaryFrom(src, spare, p, map[]).Ok? ==>
              DecodeValue(src, spare, p) == Ok(Dictionary(DictionaryFrom(src, spare, p, map[]).value), DictionaryFrom(src, spare, p, map[]).end)
  {
    hide ListFrom, DictionaryFrom, DecodeInteger, DecodeString;
  }

  /**
    Decoding a printed value in the middle of any input gives the value back and stops at its
    last byte.
   */
  lemma {:induction false} RoundTrip(v: Value, src: Bytes, spare: Bytes, p: nat)
    requires Valid(v) && At(src, p, Literal(v))
    ensures DecodeValue(src, spare, p) == Ok(v, p + |Literal(v)| - 1)
    decreases v, 0, 0
  {
    hide DecodeValue, ListFrom, DictionaryFrom, DecodeInteger, DecodeString, SortedKeys, Insert, Number, Decimal, At, EntriesLiteral, ItemsLiteral;
    LiteralHead(v);
    AtSplit(src, p, Literal(v), []) by {
      assert Literal(v) + [] == Literal(v);
    }
    assert src[p + 0] == Literal(v)[0];
    Dispatch(src, spare, p);
    match v
    case Integer(i) =>
      IntegerRoundTrip(i, src, p);
    case ByteString(s) =>
      StringRoundTrip(s, src, spare, p);
    case List(items) =>
      AtSplit(src, p, [LIST], ItemsLiteral(items) + [END]) by {
        assert Literal(v) == [LIST] + (ItemsLiteral(items) + [END]);
      }
      ItemsRoundTrip(items, src, spare, p, [], items);
    case Dictionary(dict) =>
      SortedKeysShape(dict.Keys);
      var keys := SortedKeys(dict.Keys);
      AtSplit(src, p, [DICTIONARY], EntriesLiteral(v, keys) + [END]) by {
        assert Literal(v) == [DICTIONARY] + (EntriesLiteral(v, keys) + [END]);
      }
      EntriesRoundTrip(v, keys, src, spare, p, map[]);
      InsertSorted(v);
  }

  lemma LastItem(src: Bytes, spare: Bytes, p: nat, done: seq<Value>)
    requires At(src, p + 1, ItemsLiteral([]) + [END])
    ensures ListFrom(src, spare, p, done) == Ok(done, p + 1) && done + [] == done
    ensures ItemsLiteral([]) == []
  {
    AtSplit(src, p + 1, [], [END]);
    assert [] + [END] == [END];
    assert src[p + 1] == [END][0];
  }

  lemma Regroup(done: seq<Value>, items: seq<Value>)
    requires |items| > 0
    ensures done + items == done + [items[0]] + items[1..]
  {
  }

  /** Where the first of several items stands. */
  lemma FirstItem(items: seq<Value>, src: Bytes, p: nat)
    requires |items| > 0
    ensures At(src, p + 1, ItemsLiteral(items) + [END]) ==>
              var end := p + |Literal(items[0])|;
              && At(src, p + 1, Literal(items[0]))
              && At(src, end + 1, ItemsLiteral(items[1..]) + [END])
              && |ItemsLiteral(items)| == end - p + |ItemsLiteral(items[1..])|
              && p + 1 < |src| && src[p + 1] != END
  {
    hide Literal, At;
    var head, rest := Literal(items[0]), ItemsLiteral(items[1..]) + [END];
    assert ItemsLiteral(items) + [END] == head + rest;
    hide ItemsLiteral;
    if At(src, p + 1, head + rest) {
      AtSplit(src, p + 1, head, rest);
      LiteralHead(items[0]);
      AtFits(src, p + 1, head);
      assert src[p + 1 + 0] == head[0];
    }
  }

  lemma {:induction false} ItemsRoundTrip(items: seq<Value>, src: Bytes, spare: Bytes, p: nat, done: seq<Value>, all: seq<Value>)
    requires all == done + items
    requires forall i :: 0 <= i < |items| ==> Valid(items[i])
    requires At(src, p + 1, ItemsLiteral(items) + [END])
    ensures ListFrom(src, spare, p, done) == Ok(all, p + 1 + |ItemsLiteral(items)|)
    decreases items, 1, 0
  {
    hide ListFrom, At, ItemsLiteral, Literal, DecodeValue, Valid;
    if |items| == 0 {
      assert items == [];
      LastItem(src, spare, p, done);
    } else {
      var end := p + |Literal(items[0])|;
      FirstItem(items, src, p);
      LiteralHead(items[0]);
      RoundTrip(items[0], src, spare, p + 1);
      ItemStep(src, spare, p, done, items[0], end);
      Regroup(done, items);
      ItemsRoundTrip(items[1..], src, spare, end, done + [items[0]], all);
    }
  }

  lemma LastEntry(v: Value, src: Bytes, spare: Bytes, p: nat, done: map<Bytes, Value>)
    requires v.Dictionary? && At(src, p + 1, EntriesLiteral(v, []) + [END])
    ensures DictionaryFrom(src, spare, p, done) == Ok(done, p + 1)
    ensures EntriesLiteral(v, []) == []
  {
    AtSplit(src, p + 1, [], [END]);
    assert [] + [END] == [END];
    assert src[p + 1] == [END][0];
  }

  /** Where the first of several entries stands. */
  lemma FirstEntry(v: Value, keys: seq<Bytes>, src: Bytes, p: nat)
    requires v.Dictionary? && |keys| > 0 && forall k <- keys :: k in v.dict
    ensures At(src, p + 1, EntriesLiteral(v, keys) + [END]) ==>
              var last := p + |StringLiteral(keys[0])|;
              var end := last + |Literal(v.dict[keys[0]])|;
              && last + 1 < |src| && At(src, p + 1, StringLiteral(keys[0]))
              && At(src, last + 1, Literal(v.dict[keys[0]]))
              && At(src, end + 1, EntriesLiteral(v, keys[1..]) + [END])
              && |EntriesLiteral(v, keys)| == end - p + |EntriesLiteral(v, keys[1..])|
              && p + 1 < |src| && src[p + 1] != END
  {
    hide Literal, StringLiteral, At;
    var key, value := StringLiteral(keys[0]), Literal(v.dict[keys[0]]);
    var rest := EntriesLiteral(v, keys[1..]) + [END];
    assert EntriesLiteral(v, keys) + [END] == key + (value + rest);
    hide EntriesLiteral;
    if At(src, p + 1, key + (value + rest)) {
      AtSplit(src, p + 1, key, value + rest);
      AtSplit(src, p + 1 + |key|, value, rest);
      StringHead(keys[0]);
      LiteralHead(v.dict[keys[0]]);
      AtFits(src, p + 1 + |key|, value);
      assert src[p + 1 + 0] == key[0];
    }
  }

  lemma {:induction false} EntriesRoundTrip(v: Value, keys: seq<Bytes>, src: Bytes, spare: Bytes, p: nat, done: map<Bytes, Value>)
    requires v.Dictionary? && Valid(v) && forall k <- keys :: k in v.dict
    requires At(src, p + 1, EntriesLiteral(v, keys) + [END])
    ensures DictionaryFrom(src, spare, p, done) == Ok(Insert(done, v, keys), p + 1 + |EntriesLiteral(v, keys)|)
    decreases v, 0, 0, |keys|
  {
    hide DecodeValue, DecodeString, DictionaryFrom, Literal, StringLiteral, EntriesLiteral, Decimal, At, Less;
    if |keys| == 0 {
      assert keys == [];
      LastEntry(v, src, spare, p, done);
    } else {
      var k := keys[0];
      var last := p + |StringLiteral(k)|;
      var end := last + |Literal(v.dict[k])|;
      FirstEntry(v, keys, src, p);
      StringRoundTrip(k, src, spare, p + 1);
      LiteralHead(v.dict[k]);
      RoundTrip(v.dict[k], src, spare, last + 1);
      EntryStep(src, spare, p, done, k, last, v.dict[k], end);
      EntriesRoundTrip(v, keys[1..], src, spare, end, done[k := v.dict[k]]);
    }
  }

  /** The encoding is prefix-free, and so two values never print alike. */
  lemma PrefixFree(a: Value, b: Value)
    requires Valid(a) && Valid(b) && Literal(a) <= Literal(b)
    ensures a == b
  {
    RoundTrip(a, Literal(b), [], 0);
    RoundTrip(b, Literal(b), [], 0);
  }

  // ---------- Whatever was decoded can be printed and decoded again ----------

  lemma DecodedKeyFits(src: Bytes, spare: Bytes, p: nat)
    requires p <= |src| && |src| + |spare| < I64 && DecodeString(src, spare, p).Ok?
    ensures |DecodeString(src, spare, p).value| < I64
  {
  }

  lemma {:induction false} DecodedIsValid(src: Bytes, spare: Bytes, p: nat)
    requires p < |src| && |src| + |spare| < I64
    ensures DecodeValue(src, spare, p).Ok? ==> Valid(DecodeValue(src, spare, p).value)
    decreases |src| - p, 1
  {
    if src[p] == LIST {
      ItemsAreValid(src, spare, p, []);
    } else if src[p] == DICTIONARY {
      EntriesAreValid(src, spare, p, map[]);
    }
  }

  lemma {:induction false} ItemsAreValid(src: Bytes, spare: Bytes, p: nat, done: seq<Value>)
    requires |src| + |spare| < I64 && forall x <- done :: Valid(x)
    ensures ListFrom(src, spare, p, done).Ok? ==> forall x <- ListFrom(src, spare, p, done).value :: Valid(x)
    decreases Behind(src, p), 0
  {
    if p + 1 < |src| && src[p + 1] != END {
      DecodedIsValid(src, spare, p + 1);
      match DecodeValue(src, spare, p + 1) {
        case Ok(v, end) => ItemsAreValid(src, spare, end, done + [v]);
        case _ =>
      }
    }
  }

  lemma {:induction false} EntriesAreValid(src: Bytes, spare: Bytes, p: nat, done: map<Bytes, Value>)
    requires |src| + |spare| < I64 && Valid(Dictionary(done))
    ensures DictionaryFrom(src, spare, p, done).Ok? ==> Valid(Dictionary(DictionaryFrom(src, spare, p, done).value))
    decreases Behind(src, p), 0
  {
    hide DecodeValue, DecodeString;
    if p + 1 < |src| && src[p + 1] != END {
      match DecodeString(src, spare, p + 1) {
        case Ok(k, last) =>
          if last + 1 < |src| {
            DecodedIsValid(src, spare, last + 1);
            match DecodeValue(src, spare, last + 1) {
              case Ok(v, end) =>
                DecodedKeyFits(src, spare, p + 1);
                EntriesAreValid(src, spare, end, done[k := v]);
              case Bad =>
              case OutOfBounds =>
            }
          }
        case Bad =>
        case OutOfBounds =>
      }
    }
  }

  /**
    For every input the decoder accepts, canonical or not: printing what it returned and decoding
    that again changes nothing, so a second print is the first.
   */
  lemma ReprintIsStable(src: Bytes, spare: Bytes, p: nat, room: Bytes)
    requires p < |src| && |src| + |spare| < I64 && DecodeValue(src, spare, p).Ok?
    ensures var text := Literal(DecodeValue(src, spare, p).value);
            DecodeValue(text, room, 0) == Ok(DecodeValue(src, spare, p).value, |text| - 1)
  {
    DecodedIsValid(src, spare, p);
    var v := DecodeValue(src, spare, p).value;
    LiteralHead(v);
    RoundTrip(v, Literal(v), room, 0);
  }
}
