/**
  The canonical form of bencoded bytes, given as a grammar that mentions neither the printer nor
  the decoder, and the proof that it is exactly the input on which printing undoes decoding.
 */
module BencodeCanonical {
  import opened Base
  import opened Bencode
  import opened BencodeRoundTrip
  import opened BencodeLocality

  /** A concrete syntax tree, which keeps every number and every entry as it was written. */
  datatype Tree =
    | Num(text: Bytes)
    | Text(length: Bytes, s: Bytes)
    | Seq(items: seq<Tree>)
    | Dict(entries: seq<Entry>)
  datatype Entry = Entry(length: Bytes, key: Bytes, tree: Tree)

  /** The bytes that a tree stands for. */
  function Flatten(t: Tree): Bytes {
    match t
    case Num(text) => [INTEGER] + text + [END]
    case Text(length, s) => length + [DELIMITER] + s
    case Seq(items) => [LIST] + FlattenItems(items) + [END]
    case Dict(entries) => [DICTIONARY] + FlattenEntries(entries) + [END]
  }

  function FlattenItems(items: seq<Tree>): Bytes {
    if |items| == 0 then [] else Flatten(items[0]) + FlattenItems(items[1..])
  }

  function FlattenEntries(entries: seq<Entry>): Bytes {
    if |entries| == 0 then []
    else
      var e := entries[0];
      e.length + [DELIMITER] + e.key + Flatten(e.tree) + FlattenEntries(entries[1..])
  }

  function NumeralValue(s: Bytes): nat
    requires Numeral(s)
  {
    NumeralIsDecimal(s);
    ParseDigits(s).value
  }

  /** No leading zero, no plus sign, no minus zero, and within 64 bits. */
  predicate CanonicalNumber(text: Bytes) {
    || (Numeral(text) && NumeralValue(text) < I64)
    || (|text| > 1 && text[0] == MINUS && text[1] != ZERO && Numeral(text[1..]) && NumeralValue(text[1..]) <= I64)
  }

  predicate CanonicalText(length: Bytes, s: Bytes) {
    Numeral(length) && NumeralValue(length) == |s| < I64
  }

  function Keys(entries: seq<Entry>): seq<Bytes> {
    seq(|entries|, i requires 0 <= i < |entries| => entries[i].key)
  }

  /** The keys of every dictionary strictly ascend, so they are distinct. */
  ghost predicate Canonical(t: Tree) {
    match t
    case Num(text) => CanonicalNumber(text)
    case Text(length, s) => CanonicalText(length, s)
    case Seq(items) => forall x <- items :: Canonical(x)
    case Dict(entries) =>
      && Ascending(Keys(entries))
      && CanonicalEntries(entries)
  }

  ghost predicate CanonicalEntries(entries: seq<Entry>) {
    forall e <- entries :: CanonicalText(e.length, e.key) && Canonical(e.tree)
  }

  function NumberOf(text: Bytes): int
    requires CanonicalNumber(text)
  {
    if text[0] == MINUS then var n: int := NumeralValue(text[1..]); -n else NumeralValue(text)
  }

  /** What a canonical tree means. */
  ghost function ValueOf(t: Tree): Value
    requires Canonical(t)
  {
    match t
    case Num(text) => Integer(NumberOf(text))
    case Text(_, s) => ByteString(s)
    case Seq(items) => List(seq(|items|, i requires 0 <= i < |items| => ValueOf(items[i])))
    case Dict(entries) => Dictionary(EntryValues(entries))
  }

  ghost function EntryValues(entries: seq<Entry>): map<Bytes, Value>
    requires CanonicalEntries(entries)
  {
    if |entries| == 0 then map[]
    else EntryValues(entries[1..])[entries[0].key := ValueOf(entries[0].tree)]
  }

  // ---------- From canonical trees to values ----------

  lemma CanonicalNumberPrints(text: Bytes)
    requires CanonicalNumber(text)
    ensures Number(NumberOf(text)) == text && -I64 <= NumberOf(text) < I64
  {
    hide Decimal, ParseDigits;
    if text[0] == MINUS {
      NumeralIsDecimal(text[1..]);
      assert text == [MINUS] + text[1..];
    } else {
      NumeralIsDecimal(text);
    }
  }

  lemma CanonicalTextPrints(length: Bytes, s: Bytes)
    requires CanonicalText(length, s)
    ensures StringLiteral(s) == length + [DELIMITER] + s && |s| < I64
  {
    hide Decimal, ParseDigits;
    NumeralIsDecimal(length);
  }

  lemma {:induction false} EntryValuesKeys(entries: seq<Entry>, k: Bytes)
    requires CanonicalEntries(entries)
    ensures k in EntryValues(entries) <==> k in Keys(entries)
  {
    if |entries| > 0 {
      hide Canonical, CanonicalText, ValueOf;
      EntryValuesKeys(entries[1..], k);
      assert Keys(entries) == [entries[0].key] + Keys(entries[1..]);
    }
  }

  lemma {:induction false} EntryValueAt(entries: seq<Entry>, i: nat)
    requires Ascending(Keys(entries)) && CanonicalEntries(entries) && i < |entries|
    ensures entries[i].key in EntryValues(entries)
    ensures EntryValues(entries)[entries[i].key] == ValueOf(entries[i].tree)
  {
    hide Canonical, CanonicalText, ValueOf, Less;
    var keys := Keys(entries);
    if i > 0 {
      assert Keys(entries[1..]) == keys[1..];
      EntryValueAt(entries[1..], i - 1);
      assert Less(keys[0], keys[i]);
      LessTotal(keys[0], keys[0]);
    }
  }

  lemma EntryValuesShape(entries: seq<Entry>)
    requires Ascending(Keys(entries)) && CanonicalEntries(entries)
    ensures forall k :: k in EntryValues(entries) <==> k in Keys(entries)
    ensures forall i :: 0 <= i < |entries| ==>
              entries[i].key in EntryValues(entries) && EntryValues(entries)[entries[i].key] == ValueOf(entries[i].tree)
  {
    hide Canonical, CanonicalText, ValueOf, Less, EntryValues, Keys;
    forall k
      ensures k in EntryValues(entries) <==> k in Keys(entries)
    {
      EntryValuesKeys(entries, k);
    }
    forall i | 0 <= i < |entries|
      ensures entries[i].key in EntryValues(entries) && EntryValues(entries)[entries[i].key] == ValueOf(entries[i].tree)
    {
      EntryValueAt(entries, i);
    }
  }

  /** A canonical tree's bytes are what its value prints as. */
  lemma {:induction false} CanonicalPrints(t: Tree)
    requires Canonical(t)
    ensures Valid(ValueOf(t)) && Literal(ValueOf(t)) == Flatten(t)
    decreases t, 0, 0
  {
    hide Less, SortedKeys, Decimal, ParseDigits, CanonicalNumber, CanonicalText, Number, NumberOf, Keys;
    hide CanonicalEntries, EntryValues, EntriesLiteral, ItemsLiteral, Ascending;
    match t
    case Num(text) =>
      CanonicalNumberPrints(text);
    case Text(length, s) =>
      CanonicalTextPrints(length, s);
    case Seq(items) =>
      CanonicalItemsPrint(items, ValueOf(t).items);
    case Dict(entries) =>
      var v := ValueOf(t);
      EntryValuesShape(entries);
      SortedKeysUnique(Keys(entries), v.dict.Keys);
      CanonicalEntriesPrint(entries, v);
      EntriesValid(entries, v);
  }

  lemma EntriesValid(entries: seq<Entry>, v: Value)
    requires v.Dictionary? && forall k :: k in v.dict <==> k in Keys(entries)
    ensures CanonicalEntries(entries)
            && (forall i :: 0 <= i < |entries| ==> entries[i].key in v.dict && Valid(v.dict[entries[i].key]))
            ==> Valid(v)
  {
    hide Canonical, NumeralValue;
    if CanonicalEntries(entries)
       && forall i :: 0 <= i < |entries| ==> entries[i].key in v.dict && Valid(v.dict[entries[i].key])
    {
      forall k <- v.dict
        ensures |k| < I64 && Valid(v.dict[k])
      {
        var i :| 0 <= i < |entries| && Keys(entries)[i] == k;
        assert entries[i] in entries;
      }
    }
  }

  lemma {:induction false} CanonicalItemsPrint(items: seq<Tree>, values: seq<Value>)
    requires |items| == |values|
    requires forall i :: 0 <= i < |items| ==> Canonical(items[i]) && values[i] == ValueOf(items[i])
    ensures forall i :: 0 <= i < |values| ==> Valid(values[i])
    ensures ItemsLiteral(values) == FlattenItems(items)
    decreases items, 1, 0
  {
    if |items| > 0 {
      hide Canonical, Valid, Literal, Flatten;
      CanonicalPrints(items[0]);
      CanonicalItemsPrint(items[1..], values[1..]);
    }
  }

  lemma {:induction false} CanonicalEntriesPrint(entries: seq<Entry>, v: Value)
    requires v.Dictionary? && CanonicalEntries(entries)
    requires forall i :: 0 <= i < |entries| ==> entries[i].key in v.dict && v.dict[entries[i].key] == ValueOf(entries[i].tree)
    ensures forall i :: 0 <= i < |entries| ==> Valid(v.dict[entries[i].key])
    ensures (forall k <- Keys(entries) :: k in v.dict) && EntriesLiteral(v, Keys(entries)) == FlattenEntries(entries)
    decreases entries, 1, |entries|
  {
    if |entries| > 0 {
      var e, rest := entries[0], entries[1..];
      CanonicalPrints(e.tree);
      CanonicalTextPrints(e.length, e.key);
      CanonicalEntriesPrint(rest, v);
      assert Keys(entries)[1..] == Keys(rest);
    }
  }

  // ---------- From values to canonical trees ----------

  /** How a value is written canonically. */
  ghost function TreeOf(v: Value): Tree
    decreases v, 0, 0
  {
    match v
    case Integer(i) => Num(Number(i))
    case ByteString(s) => Text(Decimal(|s|), s)
    case List(items) => Seq(seq(|items|, i requires 0 <= i < |items| => TreeOf(items[i])))
    case Dictionary(dict) =>
      SortedKeysShape(dict.Keys);
      Dict(EntriesOf(v, SortedKeys(dict.Keys)))
  }

  ghost function EntriesOf(v: Value, keys: seq<Bytes>): seq<Entry>
    requires v.Dictionary? && forall k <- keys :: k in v.dict
    decreases v, 0, 0, |keys|
  {
    if |keys| == 0 then []
    else [Entry(Decimal(|keys[0]|), keys[0], TreeOf(v.dict[keys[0]]))] + EntriesOf(v, keys[1..])
  }

  lemma NumberIsCanonical(i: int)
    requires -I64 <= i < I64
    ensures CanonicalNumber(Number(i))
  {
    hide Decimal, ParseDigits;
    if i < 0 {
      DecimalIsNumeral(-i);
      assert Number(i)[1..] == Decimal(-i);
    } else {
      DecimalIsNumeral(i);
    }
  }

  /** Every value is the meaning of a canonical tree, and that tree's bytes are its print. */
  lemma {:induction false} TreeOfIsCanonical(v: Value)
    requires Valid(v)
    ensures Canonical(TreeOf(v)) && Flatten(TreeOf(v)) == Literal(v)
    decreases v, 0, 0
  {
    match v
    case Integer(i) =>
      NumberIsCanonical(i);
    case ByteString(s) =>
      DecimalIsNumeral(|s|);
    case List(items) =>
      ItemsAreCanonical(items, TreeOf(v).items);
    case Dictionary(dict) =>
      SortedKeysShape(dict.Keys);
      var keys := SortedKeys(dict.Keys);
      EntriesAreCanonical(v, keys);
      assert Keys(EntriesOf(v, keys)) == keys;
  }

  lemma {:induction false} ItemsAreCanonical(values: seq<Value>, items: seq<Tree>)
    requires |items| == |values| && forall i :: 0 <= i < |values| ==> Valid(values[i])
    requires forall i :: 0 <= i < |items| ==> items[i] == TreeOf(values[i])
    ensures forall i :: 0 <= i < |items| ==> Canonical(items[i])
    ensures ItemsLiteral(values) == FlattenItems(items)
    decreases values, 1, 0
  {
    hide Canonical, Valid, Literal, Flatten, TreeOf;
    if |items| > 0 {
      TreeOfIsCanonical(values[0]);
      ItemsAreCanonical(values[1..], items[1..]);
    }
  }

  lemma EntriesCons(first: Entry, rest: seq<Entry>)
    ensures Keys([first] + rest) == [first.key] + Keys(rest)
    ensures FlattenEntries([first] + rest) == first.length + [DELIMITER] + first.key + Flatten(first.tree) + FlattenEntries(rest)
    ensures CanonicalText(first.length, first.key) && Canonical(first.tree) && CanonicalEntries(rest)
            ==> CanonicalEntries([first] + rest)
  {
    hide Canonical, Flatten, CanonicalText;
    assert ([first] + rest)[1..] == rest;
  }

  /** The first of several entries, given that the value under it is canonical already. */
  lemma EntriesStep(v: Value, keys: seq<Bytes>)
    requires v.Dictionary? && |keys| > 0 && forall k <- keys :: k in v.dict
    requires |keys[0]| < I64 && Canonical(TreeOf(v.dict[keys[0]]))
    requires Flatten(TreeOf(v.dict[keys[0]])) == Literal(v.dict[keys[0]])
    ensures var rest, all := EntriesOf(v, keys[1..]), EntriesOf(v, keys);
            && Keys(all) == [keys[0]] + Keys(rest)
            && (CanonicalEntries(rest) ==> CanonicalEntries(all))
            && (EntriesLiteral(v, keys[1..]) == FlattenEntries(rest) ==> EntriesLiteral(v, keys) == FlattenEntries(all))
  {
    hide Less, Decimal, ParseDigits, Literal, Flatten, Canonical, CanonicalEntries, Keys, FlattenEntries, TreeOf;
    DecimalIsNumeral(|keys[0]|);
    var rest := EntriesOf(v, keys[1..]);
    var first := Entry(Decimal(|keys[0]|), keys[0], TreeOf(v.dict[keys[0]]));
    assert EntriesOf(v, keys) == [first] + rest;
    EntriesCons(first, rest);
  }

  lemma {:induction false} EntriesAreCanonical(v: Value, keys: seq<Bytes>)
    requires v.Dictionary? && Valid(v) && forall k <- keys :: k in v.dict
    ensures CanonicalEntries(EntriesOf(v, keys))
    ensures Keys(EntriesOf(v, keys)) == keys
    ensures EntriesLiteral(v, keys) == FlattenEntries(EntriesOf(v, keys))
    decreases v, 0, 0, |keys|
  {
    if |keys| > 0 {
      hide Less, Literal, Flatten, Canonical, CanonicalEntries, Keys, FlattenEntries, TreeOf, EntriesOf, EntriesLiteral;
      TreeOfIsCanonical(v.dict[keys[0]]);
      EntriesAreCanonical(v, keys[1..]);
      EntriesStep(v, keys);
    }
  }

  // ---------- Canonical input is exactly the input that survives ----------

  /** Some canonical tree stands for these bytes. */
  ghost predicate IsCanonical(text: Bytes) {
    exists t :: Canonical(t) && Flatten(t) == text
  }

  /** Decoding canonical bytes anywhere in an input yields their meaning and stops at their end. */
  lemma CanonicalDecodes(t: Tree, src: Bytes, spare: Bytes, p: nat)
    requires Canonical(t) && At(src, p, Flatten(t))
    ensures p < |src| && DecodeValue(src, spare, p) == Ok(ValueOf(t), p + |Flatten(t)| - 1)
  {
    CanonicalPrints(t);
    LiteralHead(ValueOf(t));
    RoundTrip(ValueOf(t), src, spare, p);
  }

  /**
    The canonical inverse: what was consumed is what would be printed exactly if the consumed
    bytes were canonical.
   */
  lemma PrintsBackIffCanonical(src: Bytes, spare: Bytes, p: nat)
    requires p < |src| && |src| + |spare| < I64 && DecodeValue(src, spare, p).Ok?
    ensures var r := DecodeValue(src, spare, p);
            var consumed := (src + spare)[p..r.end + 1];
            Literal(r.value) == consumed <==> IsCanonical(consumed)
  {
    hide DecodeValue, Literal, Canonical, Flatten, ValueOf, TreeOf;
    var r := DecodeValue(src, spare, p);
    var buffer := src + spare;
    DecodedIsValid(src, spare, p);
    TreeOfIsCanonical(r.value);
    assert buffer + [] == buffer;
    ValueAlike(src, spare, p, buffer, []);
    if IsCanonical(buffer[p..r.end + 1]) {
      var t :| Canonical(t) && Flatten(t) == buffer[p..r.end + 1];
      CanonicalDecodes(t, buffer, [], p);
      CanonicalPrints(t);
    }
  }

  // ---------- The entries of a decoded dictionary ----------

  /** Entry `i` is the last one under key `k`. */
  predicate LastWith(visits: seq<Visit>, k: Bytes, i: nat) {
    i < |visits| && visits[i].key == k && forall j :: i < j < |visits| ==> visits[j].key != k
  }

  /** A key, and the value right behind it, are what is decoded where the entry stands. */
  predicate Stands(src: Bytes, spare: Bytes, v: Visit) {
    && v.at < v.from <= v.end < |src|
    && DecodeString(src, spare, v.at) == Ok(v.key, v.from - 1)
    && DecodeValue(src, spare, v.from) == Ok(v.value, v.end)
  }

  /** The entries follow one another without gap, from behind `p` up to the end marker at `end`. */
  predicate Chained(src: Bytes, spare: Bytes, visits: seq<Visit>, p: nat, end: nat) {
    if |visits| == 0 then end == p + 1 && end < |src| && src[end] == END
    else
      && visits[0].at == p + 1 && Stands(src, spare, visits[0])
      && Chained(src, spare, visits[1..], visits[0].end, end)
  }

  /**
    The entries the dictionary loop reads stand one behind the other between the opening byte
    and the end marker, and inserting them in order gives the decoded map.
   */
  lemma {:induction false} VisitsExplain(src: Bytes, spare: Bytes, p: nat, done: map<Bytes, Value>)
    requires DictionaryFrom(src, spare, p, done).Ok?
    ensures var r, vs := DictionaryFrom(src, spare, p, done), Visits(src, spare, p);
            r.value == InsertVisits(done, vs) && Chained(src, spare, vs, p, r.end)
    decreases Behind(src, p)
  {
    hide DecodeValue, DecodeString;
    if src[p + 1] != END {
      var key := DecodeString(src, spare, p + 1);
      var value := DecodeValue(src, spare, key.end + 1);
      VisitsExplain(src, spare, value.end, done[key.value := value.value]);
      var first, rest := Visit(p + 1, key.value, key.end + 1, value.end, value.value), Visits(src, spare, value.end);
      assert Visits(src, spare, p) == [first] + rest;
      assert ([first] + rest)[1..] == rest;
    }
  }

  lemma {:induction false} ChainedStands(src: Bytes, spare: Bytes, visits: seq<Visit>, p: nat, end: nat, i: nat)
    requires Chained(src, spare, visits, p, end) && i < |visits|
    ensures Stands(src, spare, visits[i])
    decreases i
  {
    if i > 0 {
      hide Stands;
      ChainedStands(src, spare, visits[1..], visits[0].end, end, i - 1);
    }
  }

  /** Of several entries under a key the last one counts. */
  lemma {:induction false} LastWins(done: map<Bytes, Value>, visits: seq<Visit>, k: Bytes) returns (i: Option<nat>)
    requires k in InsertVisits(done, visits)
    ensures match i
            case Some(i) => LastWith(visits, k, i) && InsertVisits(done, visits)[k] == visits[i].value
            case None => k in done && InsertVisits(done, visits)[k] == done[k] && forall v <- visits :: v.key != k
    decreases |visits|
  {
    if |visits| == 0 {
      i := None;
    } else {
      var first, rest := visits[0], visits[1..];
      i := LastWins(done[first.key := first.value], rest, k);
      assert visits == [first] + rest;
      if i.Some? {
        i := Some(i.value + 1);
      } else if first.key == k {
        i := Some(0);
      }
    }
  }

  // ---------- The hash of a torrent's info dictionary ----------

  /** The key `info`. */
  const INFO: Bytes := [105, 110, 102, 111]

  /**
    The info hash is taken over the re-printed info dictionary, that is the value of the last
    entry under `info` of the torrent file's own dictionary. What is hashed is what stands in the
    file, so that every client hashes the same bytes, exactly if it is canonical there.
   */
  lemma InfoHash<H>(src: Bytes, spare: Bytes, hash: Bytes -> H) returns (i: nat)
    requires 0 < |src| && |src| + |spare| < I64
    requires DecodeValue(src, spare, 0).Ok? && DecodeValue(src, spare, 0).value.Dictionary?
    requires INFO in DecodeValue(src, spare, 0).value.dict
    ensures INFO == Ascii("info")
    ensures var r, vs := DecodeValue(src, spare, 0), Visits(src, spare, 0);
            var info := r.value.dict[INFO];
            && Chained(src, spare, vs, 0, r.end) && LastWith(vs, INFO, i)
            && Stands(src, spare, vs[i]) && vs[i].value == info
            && var original := src[vs[i].from..vs[i].end + 1];
            && (Literal(info) == original <==> IsCanonical(original))
            && (IsCanonical(original) ==> hash(Literal(info)) == hash(original))
  {
    hide ListFrom, DictionaryFrom, DecodeInteger, DecodeString, Visits, InsertVisits, Chained, Literal, IsCanonical;
    assert src[0] == DICTIONARY;
    VisitsExplain(src, spare, 0, map[]);
    hide DecodeValue;
    var vs := Visits(src, spare, 0);
    var last := LastWins(map[], vs, INFO);
    i := last.value;
    ChainedStands(src, spare, vs, 0, DecodeValue(src, spare, 0).end, i);
    PrintsBackIffCanonical(src, spare, vs[i].from);
    assert (src + spare)[vs[i].from..vs[i].end + 1] == src[vs[i].from..vs[i].end + 1];
  }
}
