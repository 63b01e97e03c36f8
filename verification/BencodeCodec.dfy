/**
  The decoder and the printer as loops over a position and a builder. The decoder's slice is
  `src` with `spare` behind it up to its capacity.
 */
module BencodeCodec {
  import opened Base
  import B = Bencode

  /** `advanceUntil`. */
  method AdvanceUntil(src: Bytes, start: nat, tok: byte) returns (r: Option<nat>)
    requires start <= |src|
    ensures r == B.AdvanceUntil(src, start, tok)
    ensures r.None? <==> tok !in src[start..]
    ensures r.Some? ==> start <= r.value < |src| && src[r.value] == tok && tok !in src[start..r.value]
  {
    var curr := start;
    while curr < |src| && src[curr] != tok
      invariant start <= curr <= |src|
      invariant tok !in src[start..curr]
      invariant B.AdvanceUntil(src, start, tok) == B.AdvanceUntil(src, curr, tok)
    {
      curr := curr + 1;
    }
    if curr == |src| {
      return None;
    }
    return Some(curr);
  }

  class Integer {
    var i: int

    constructor ()
      ensures i == 0
    {
      i := 0;
    }

    method Decode(src: Bytes, position: nat) returns (r: B.Outcome<nat>)
      requires position < |src|
      modifies this
      ensures r == End(B.DecodeInteger(src, position))
      ensures i == if r.Ok? then B.DecodeInteger(src, position).value else old(i)
    {
      if src[position] != B.INTEGER {
        return B.Bad;
      }
      var start := position + 1;
      var end := AdvanceUntil(src, start, B.END);
      if end.None? {
        return B.Bad;
      }
      if end.value - start > 1 && src[start] == B.ZERO {
        return B.Bad;
      }
      var ii := B.ParseInt(src[start..end.value]);
      if ii.None? {
        return B.Bad;
      }
      i := ii.value;
      return B.Ok(end.value, end.value);
    }
  }

  class ByteString {
    var s: Bytes

    constructor ()
      ensures s == []
    {
      s := [];
    }

    method Decode(src: Bytes, spare: Bytes, position: nat) returns (r: B.Outcome<nat>)
      requires position <= |src|
      modifies this
      ensures r == End(B.DecodeString(src, spare, position))
      ensures s == if r.Ok? then B.DecodeString(src, spare, position).value else old(s)
    {
      var delim := AdvanceUntil(src, position, B.DELIMITER);
      if delim.None? {
        return B.Bad;
      }
      var l := B.ParseInt(src[position..delim.value]);
      if l.None? {
        return B.Bad;
      }
      var start := delim.value + 1;
      var end := start + l.value;
      if end < start || end > |src| + |spare| {
        return B.OutOfBounds;
      }
      s := (src + spare)[start..end];
      return B.Ok(end - 1, end - 1);
    }
  }

  /** The position that `Decode` returns beside the value it stores. */
  function End<T>(r: B.Outcome<T>): B.Outcome<nat> {
    match r
    case Ok(_, end) => B.Ok(end, end)
    case Bad => B.Bad
    case OutOfBounds => B.OutOfBounds
  }

  /** Picks the receiver from the first byte, decodes into it and hands it over. */
  method DecodeNext(src: Bytes, spare: Bytes, position: nat) returns (r: B.Outcome<B.Value>)
    requires position < |src|
    ensures r == B.DecodeValue(src, spare, position)
    decreases |src| - position, 1
  {
    var tok := src[position];
    if tok == B.LIST {
      var l := new List();
      var end := l.Decode(src, spare, position);
      match end {
        case Ok(e, _) => return B.Ok(B.List(l.items), e);
        case Bad => return B.Bad;
        case OutOfBounds => return B.OutOfBounds;
      }
    } else if tok == B.DICTIONARY {
      var d := new Dictionary();
      var end := d.Decode(src, spare, position);
      match end {
        case Ok(e, _) => return B.Ok(B.Dictionary(d.dict), e);
        case Bad => return B.Bad;
        case OutOfBounds => return B.OutOfBounds;
      }
    } else if tok == B.INTEGER {
      var i := new Integer();
      var end := i.Decode(src, position);
      match end {
        case Ok(e, _) => return B.Ok(B.Integer(i.i), e);
        case Bad => return B.Bad;
        case OutOfBounds => return B.OutOfBounds;
      }
    } else if B.IsDigit(tok) {
      var s := new ByteString();
      var end := s.Decode(src, spare, position);
      match end {
        case Ok(e, _) => return B.Ok(B.ByteString(s.s), e);
        case Bad => return B.Bad;
        case OutOfBounds => return B.OutOfBounds;
      }
    } else {
      return B.Bad;
    }
  }

  class List {
    var items: seq<B.Value>

    constructor ()
      ensures items == []
    {
      items := [];
    }

    method Decode(src: Bytes, spare: Bytes, start: nat) returns (r: B.Outcome<nat>)
      requires start < |src|
      modifies this
      ensures src[start] != B.LIST ==> r == B.Bad && items == old(items)
      ensures src[start] == B.LIST ==> r == End(B.ListFrom(src, spare, start, old(items)))
      ensures r.Ok? ==> items == B.ListFrom(src, spare, start, old(items)).value
      ensures src[start] == B.LIST ==> items == B.Gathered(src, spare, start, old(items))
      decreases |src| - start, 0
    {
      if src[start] != B.LIST {
        return B.Bad;
      }
      var position := start;
      while true
        invariant start <= position
        invariant B.ListFrom(src, spare, start, old(items)) == B.ListFrom(src, spare, position, items)
        invariant B.Gathered(src, spare, start, old(items)) == B.Gathered(src, spare, position, items)
        decreases B.Behind(src, position)
      {
        if position == |src| - 1 {
          return B.Bad;
        }
        position := position + 1;
        if position >= |src| {
          return B.OutOfBounds;
        }
        if src[position] == B.END {
          return B.Ok(position, position);
        }
        var d := DecodeNext(src, spare, position);
        match d {
          case Bad => return B.Bad;
          case OutOfBounds => return B.OutOfBounds;
          case Ok(v, end) =>
            position := end;
            items := items + [v];
        }
      }
    }

    method Literal() returns (b: Bytes)
      ensures b == B.Literal(B.List(items))
    {
      b := Print(B.List(items));
    }
  }

  class Dictionary {
    var dict: map<Bytes, B.Value>

    constructor ()
      ensures dict == map[]
    {
      dict := map[];
    }

    method Decode(src: Bytes, spare: Bytes, start: nat) returns (r: B.Outcome<nat>)
      requires start < |src|
      modifies this
      ensures src[start] != B.DICTIONARY ==> r == B.Bad && dict == old(dict)
      ensures src[start] == B.DICTIONARY ==> r == End(B.DictionaryFrom(src, spare, start, old(dict)))
      ensures r.Ok? ==> dict == B.DictionaryFrom(src, spare, start, old(dict)).value
      ensures src[start] == B.DICTIONARY ==> dict == B.InsertVisits(old(dict), B.Visits(src, spare, start))
      decreases |src| - start, 0
    {
      hide B.DecodeString, B.DecodeValue;
      if src[start] != B.DICTIONARY {
        return B.Bad;
      }
      var position := start;
      while true
        invariant start <= position
        invariant B.DictionaryFrom(src, spare, start, old(dict)) == B.DictionaryFrom(src, spare, position, dict)
        invariant B.InsertVisits(old(dict), B.Visits(src, spare, start))
               == B.InsertVisits(dict, B.Visits(src, spare, position))
        decreases B.Behind(src, position)
      {
        if position == |src| - 1 {
          return B.Bad;
        }
        position := position + 1;
        if position >= |src| {
          return B.OutOfBounds;
        }
        if src[position] == B.END {
          return B.Ok(position, position);
        }
        var k := new ByteString();
        var key := k.Decode(src, spare, position);
        match key {
          case Bad => return B.Bad;
          case OutOfBounds => return B.OutOfBounds;
          case Ok(last, _) => position := last;
        }
        position := position + 1;
        if position >= |src| {
          return B.OutOfBounds;
        }
        var v := DecodeNext(src, spare, position);
        match v {
          case Bad => return B.Bad;
          case OutOfBounds => return B.OutOfBounds;
          case Ok(value, end) =>
            position := end;
            dict := dict[k.s := value];
        }
      }
    }

    method Literal() returns (b: Bytes)
      ensures b == B.Literal(B.Dictionary(dict))
    {
      b := Print(B.Dictionary(dict));
    }
  }

  // ---------- Printing ----------

  lemma ItemsSnoc(items: seq<B.Value>, i: nat)
    requires i < |items|
    ensures B.ItemsLiteral(items[..i + 1]) == B.ItemsLiteral(items[..i]) + B.Literal(items[i])
  {
    ItemsSplit(items[..i], [items[i]]);
    assert items[..i + 1] == items[..i] + [items[i]];
    assert [items[i]][1..] == [];
  }

  lemma {:induction false} ItemsSplit(a: seq<B.Value>, b: seq<B.Value>)
    ensures B.ItemsLiteral(a + b) == B.ItemsLiteral(a) + B.ItemsLiteral(b)
  {
    hide B.Literal;
    if |a| == 0 {
      assert a + b == b;
    } else {
      assert (a + b)[1..] == a[1..] + b;
      ItemsSplit(a[1..], b);
    }
  }

  lemma {:induction false} EntriesSnoc(v: B.Value, keys: seq<Bytes>, k: Bytes)
    requires v.Dictionary? && forall x <- keys + [k] :: x in v.dict
    ensures B.EntriesLiteral(v, keys + [k])
         == B.EntriesLiteral(v, keys) + (B.StringLiteral(k) + B.Literal(v.dict[k]))
    decreases |keys|
  {
    if |keys| == 0 {
      assert keys + [k] == [k] && [k][1..] == [];
    } else {
      assert (keys + [k])[1..] == keys[1..] + [k];
      EntriesSnoc(v, keys[1..], k);
    }
  }

  /** The keys of a map, collected in any order and put in ascending order. */
  method CollectSorted(dict: map<Bytes, B.Value>) returns (keys: seq<Bytes>)
    ensures B.Ascending(keys) && forall k :: k in keys <==> k in dict
    ensures keys == B.SortedKeys(dict.Keys)
  {
    keys := [];
    var rest := dict.Keys;
    while rest != {}
      invariant rest <= dict.Keys && B.Ascending(keys)
      invariant forall k :: k in keys <==> k in dict.Keys - rest
      decreases |rest|
    {
      var k :| k in rest;
      keys := Place(keys, k);
      rest := rest - {k};
    }
    B.SortedKeysUnique(keys, dict.Keys);
  }

  /** Puts a new key where it belongs. */
  method Place(keys: seq<Bytes>, k: Bytes) returns (r: seq<Bytes>)
    requires B.Ascending(keys) && k !in keys
    ensures B.Ascending(r) && forall x :: x in r <==> x == k || x in keys
  {
    var i := 0;
    while i < |keys| && B.Less(keys[i], k)
      invariant 0 <= i <= |keys|
      invariant forall j :: 0 <= j < i ==> B.Less(keys[j], k)
    {
      i := i + 1;
    }
    forall j | i <= j < |keys|
      ensures B.Less(k, keys[j])
    {
      B.LessTotal(k, keys[i]);
      if i < j {
        B.LessTransitive(k, keys[i], keys[j]);
      }
    }
    r := keys[..i] + [k] + keys[i..];
    Placed(keys, k, i);
  }

  lemma Placed(keys: seq<Bytes>, k: Bytes, i: nat)
    requires B.Ascending(keys) && i <= |keys|
    requires forall j :: 0 <= j < i ==> B.Less(keys[j], k)
    requires forall j :: i <= j < |keys| ==> B.Less(k, keys[j])
    ensures var r := keys[..i] + [k] + keys[i..];
            B.Ascending(r) && forall x :: x in r <==> x == k || x in keys
  {
    hide B.Less;
    var r := keys[..i] + [k] + keys[i..];
    assert keys == keys[..i] + keys[i..];
    forall a, b | 0 <= a < b < |r|
      ensures B.Less(r[a], r[b])
    {
      assert r[a] == if a < i then keys[a] else if a == i then k else keys[a - 1];
      assert r[b] == if b < i then keys[b] else if b == i then k else keys[b - 1];
    }
  }

  /** `Literal` of the four types. */
  method Print(v: B.Value) returns (b: Bytes)
    ensures b == B.Literal(v)
    decreases v, 1
  {
    match v
    case Integer(i) =>
      b := [B.INTEGER] + B.Number(i) + [B.END];
    case ByteString(s) =>
      b := B.Decimal(|s|) + [B.DELIMITER] + s;
    case List(items) =>
      b := PrintItems(items);
    case Dictionary(dict) =>
      b := PrintEntries(v);
  }

  lemma Append(first: byte, body: Bytes, part: Bytes)
    ensures [first] + body + part == [first] + (body + part)
  {
  }

  /** The builder loop of a list. */
  method PrintItems(items: seq<B.Value>) returns (b: Bytes)
    ensures b == B.Literal(B.List(items))
    decreases items
  {
    b := [B.LIST];
    ghost var body := [];
    var i := 0;
    while i < |items|
      invariant 0 <= i <= |items| && b == [B.LIST] + body && body == B.ItemsLiteral(items[..i])
    {
      hide B.ItemsLiteral, B.Literal;
      var part := Print(items[i]);
      ItemsSnoc(items, i);
      Append(B.LIST, body, part);
      b, body := b + part, body + part;
      i := i + 1;
    }
    assert items[..i] == items;
    b := b + [B.END];
  }

  /** The builder loop of a dictionary, over its sorted keys. */
  method PrintEntries(v: B.Value) returns (b: Bytes)
    requires v.Dictionary?
    ensures b == B.Literal(v)
    decreases v, 0
  {
    hide B.Ascending, B.SortedKeys;
    var keys := CollectSorted(v.dict);
    b := [B.DICTIONARY];
    ghost var body := [];
    var i := 0;
    while i < |keys|
      invariant 0 <= i <= |keys| && b == [B.DICTIONARY] + body && body == B.EntriesLiteral(v, keys[..i])
    {
      hide B.EntriesLiteral, B.Literal, B.StringLiteral;
      var k := keys[i];
      var part := Print(v.dict[k]);
      assert keys[..i + 1] == keys[..i] + [k];
      EntriesSnoc(v, keys[..i], k);
      part := B.StringLiteral(k) + part;
      Append(B.DICTIONARY, body, part);
      b, body := b + part, body + part;
      i := i + 1;
    }
    assert keys[..i] == keys;
    b := b + [B.END];
  }
}
