/** Input that the decoder accepts although it is not canonical, so that printing does not give it back. */
module BencodeWitness {
  import opened Base
  import opened Bencode
  import opened BencodeRoundTrip
  import opened BencodeCanonical

  /** The text decodes to `v` as a whole, but `v` prints differently. */
  ghost predicate Rewritten(text: Bytes, v: Value) {
    && 0 < |text| && DecodeValue(text, [], 0) == Ok(v, |text| - 1)
    && Literal(v) != text && !IsCanonical(text)
  }

  lemma IsRewritten(text: Bytes, v: Value)
    requires 0 < |text| < I64 && DecodeValue(text, [], 0) == Ok(v, |text| - 1) && Literal(v) != text
    ensures Rewritten(text, v)
  {
    assert (text + [])[0..|text|] == text;
    PrintsBackIffCanonical(text, [], 0);
  }

  /** `i-0e` is read as zero. */
  lemma MinusZero()
    ensures Rewritten([INTEGER, MINUS, ZERO, END], Integer(0))
  {
    var text := [INTEGER, MINUS, ZERO, END];
    AdvanceTo(text, 1, 3, END);
    assert text[1..3] == [MINUS, ZERO] && text[1..3][1..] == [ZERO];
    assert Literal(Integer(0)) == [INTEGER, ZERO, END];
    IsRewritten(text, Integer(0));
  }

  /** `i+1e` is read as one. */
  lemma PlusSign()
    ensures Rewritten([INTEGER, PLUS, 49, END], Integer(1))
  {
    var text := [INTEGER, PLUS, 49, END];
    AdvanceTo(text, 1, 3, END);
    assert text[1..3] == [PLUS, 49] && text[1..3][1..] == [49];
    assert Literal(Integer(1)) == [INTEGER, 49, END];
    IsRewritten(text, Integer(1));
  }

  /** `01:a` is read as a string of one byte. */
  lemma PaddedLength()
    ensures Rewritten([ZERO, 49, DELIMITER, 97], ByteString([97]))
  {
    var text := [ZERO, 49, DELIMITER, 97];
    AdvanceTo(text, 0, 2, DELIMITER);
    assert text[0..2] == [ZERO, 49] && [ZERO, 49][..1] == [ZERO];
    assert ParseDigits([ZERO]) == Some(0) && ParseDigits([ZERO, 49]) == Some(1);
    assert (text + [])[3..4] == [97];
    assert Literal(ByteString([97])) == [49, DELIMITER, 97];
    IsRewritten(text, ByteString([97]));
  }

  // ---------- Dictionaries of two entries ----------

  /** The entry with a key of one byte and a value of one digit, `1:ki0e`. */
  function Pair(k: byte, digit: byte): Bytes {
    [49, DELIMITER, k, INTEGER, digit, END]
  }

  function TwoEntries(k: byte, d: byte, k': byte, d': byte): Bytes {
    [DICTIONARY] + Pair(k, d) + Pair(k', d') + [END]
  }

  lemma PairDecodes(src: Bytes, spare: Bytes, p: nat, k: byte, d: nat, done: map<Bytes, Value>)
    requires d < 10 && At(src, p + 1, Pair(k, Digit(d)))
    ensures DictionaryFrom(src, spare, p, done) == DictionaryFrom(src, spare, p + 6, done[[k] := Integer(d)])
  {
    var key, value := [49, DELIMITER, k], [INTEGER, Digit(d), END];
    assert Decimal(1) == [49];
    assert StringLiteral([k]) == key;
    assert Literal(Integer(d)) == value;
    assert Pair(k, Digit(d)) == key + value;
    AtSplit(src, p + 1, key, value);
    assert src[p + 1 + 0] == key[0];
    StringRoundTrip([k], src, spare, p + 1);
    RoundTrip(Integer(d), src, spare, p + 4);
    AtFits(src, p + 4, value);
    EntryStep(src, spare, p, done, [k], p + 3, Integer(d), p + 6);
  }

  /** Two entries are read in any key order, and the second replaces the first under the same key. */
  lemma TwoEntriesDecode(src: Bytes, spare: Bytes, p: nat, k: byte, d: nat, k': byte, d': nat)
    requires d < 10 && d' < 10 && At(src, p, TwoEntries(k, Digit(d), k', Digit(d')))
    ensures p < |src|
    ensures DecodeValue(src, spare, p) == Ok(Dictionary(map[[k] := Integer(d)][[k'] := Integer(d')]), p + 13)
  {
    hide DecodeString, DecodeInteger;
    var first, second := Pair(k, Digit(d)), Pair(k', Digit(d'));
    assert TwoEntries(k, Digit(d), k', Digit(d')) == [DICTIONARY] + (first + (second + [END]));
    AtSplit(src, p, [DICTIONARY], first + (second + [END]));
    AtSplit(src, p + 1, first, second + [END]);
    AtSplit(src, p + 7, second, [END]);
    assert src[p + 0] == [DICTIONARY][0];
    assert src[p + 13 + 0] == [END][0];
    PairDecodes(src, spare, p, k, d, map[]);
    PairDecodes(src, spare, p + 6, k', d', map[[k] := Integer(d)]);
    Dispatch(src, spare, p);
  }

  lemma TwoEntriesPrint(k: byte, d: nat, k': byte, d': nat)
    requires d < 10 && d' < 10 && k < k'
    ensures Literal(Dictionary(map[[k] := Integer(d), [k'] := Integer(d')])) == TwoEntries(k, Digit(d), k', Digit(d'))
  {
    var v := Dictionary(map[[k] := Integer(d), [k'] := Integer(d')]);
    assert Less([k], [k']);
    SortedKeysUnique([[k], [k']], v.dict.Keys);
    assert [[k], [k']][1..] == [[k']] && [[k']][1..] == [];
    assert Decimal(1) == [49];
    assert EntriesLiteral(v, [[k']]) == Pair(k', Digit(d')) + EntriesLiteral(v, []);
    assert EntriesLiteral(v, [[k], [k']]) == Pair(k, Digit(d)) + EntriesLiteral(v, [[k']]);
  }

  lemma Whole(text: Bytes)
    ensures At(text, 0, text)
  {
    assert text[0..|text|] == text;
  }

  lemma TwoEntriesShape(k: byte, d: byte, k': byte, d': byte)
    ensures |TwoEntries(k, d, k', d')| == 14 && TwoEntries(k, d, k', d')[3] == k
  {
  }

  /** `d1:bi0e1:ai0ee` is read as if its keys were in order. */
  lemma UnsortedKeys()
    ensures Rewritten(TwoEntries(98, ZERO, 97, ZERO), Dictionary(map[[97] := Integer(0), [98] := Integer(0)]))
  {
    hide DecodeValue, Literal, TwoEntries, IsCanonical, At;
    var text, v := TwoEntries(98, Digit(0), 97, Digit(0)), Dictionary(map[[97] := Integer(0), [98] := Integer(0)]);
    TwoEntriesShape(98, ZERO, 97, ZERO);
    TwoEntriesShape(97, ZERO, 98, ZERO);
    Whole(text);
    TwoEntriesDecode(text, [], 0, 98, 0, 97, 0);
    assert v.dict == map[[98] := Integer(0)][[97] := Integer(0)];
    TwoEntriesPrint(97, 0, 98, 0);
    IsRewritten(text, v);
  }

  lemma OneEntryPrint(k: byte, d: nat)
    requires d < 10
    ensures |Literal(Dictionary(map[[k] := Integer(d)]))| == 8
  {
    var v := Dictionary(map[[k] := Integer(d)]);
    SortedKeysUnique([[k]], v.dict.Keys);
    assert [[k]][1..] == [];
    assert EntriesLiteral(v, [[k]]) == StringLiteral([k]) + Literal(Integer(d)) + [];
    assert Decimal(1) == [49];
  }

  /** `d1:ai0e1:ai1ee` is read as its second entry alone. */
  lemma RepeatedKey()
    ensures Rewritten(TwoEntries(97, ZERO, 97, 49), Dictionary(map[[97] := Integer(1)]))
  {
    hide DecodeValue, Literal, TwoEntries, IsCanonical, At;
    var text, v := TwoEntries(97, Digit(0), 97, Digit(1)), Dictionary(map[[97] := Integer(1)]);
    TwoEntriesShape(97, ZERO, 97, 49);
    Whole(text);
    TwoEntriesDecode(text, [], 0, 97, 0, 97, 1);
    assert v.dict == map[[97] := Integer(0)][[97] := Integer(1)];
    OneEntryPrint(97, 1);
    IsRewritten(text, v);
  }

  // ---------- A torrent file whose info dictionary is rewritten ----------

  /** A file with one entry, `info`, whose value decodes to a dictionary. */
  function InfoFile(info: Bytes): Bytes {
    [DICTIONARY] + (StringLiteral(INFO) + (info + [END]))
  }

  lemma InfoFileShape(info: Bytes)
    ensures var text := InfoFile(info);
            && |text| == 8 + |info| && |StringLiteral(INFO)| == 6
            && text[0] == DICTIONARY && text[1] != END && text[7 + |info|] == END
            && At(text, 1, StringLiteral(INFO)) && At(text, 7, info) && text[7..7 + |info|] == info
  {
    var text := InfoFile(info);
    var key := StringLiteral(INFO);
    assert Decimal(4) == [52];
    assert |key| == 6 && key[0] == 52;
    Whole(text);
    AtSplit(text, 0, [DICTIONARY], key + (info + [END]));
    AtSplit(text, 1, key, info + [END]);
    AtSplit(text, 7, info, [END]);
    assert text[1 + 0] == key[0] && text[7 + |info| + 0] == [END][0];
  }

  lemma InfoFileDecodes(info: Bytes, v: Value)
    requires |info| > 0 && DecodeValue(InfoFile(info), [], 7) == Ok(v, 6 + |info|)
    ensures DecodeValue(InfoFile(info), [], 0) == Ok(Dictionary(map[INFO := v]), 7 + |info|)
  {
    hide DecodeString, DecodeInteger, ListFrom, StringLiteral, InfoFile, At;
    var text := InfoFile(info);
    InfoFileShape(info);
    StringRoundTrip(INFO, text, [], 1);
    EntryStep(text, [], 0, map[], INFO, 6, v, 6 + |info|);
    assert map[][INFO := v] == map[INFO := v];
    Dispatch(text, [], 0);
  }

  /** In `d4:infod1:bi0e1:ai0eee` the info hash is not taken over the bytes of the file. */
  lemma InfoIsRewritten()
    ensures var text := InfoFile(TwoEntries(98, ZERO, 97, ZERO));
            var info := Dictionary(map[[97] := Integer(0), [98] := Integer(0)]);
            && DecodeValue(text, [], 0) == Ok(Dictionary(map[INFO := info]), 21)
            && |text| == 22 && text[7..21] == TwoEntries(98, ZERO, 97, ZERO) && Literal(info) != text[7..21]
  {
    hide DecodeValue, Literal, TwoEntries, IsCanonical, At, InfoFile, StringLiteral;
    var value, info := TwoEntries(98, Digit(0), 97, Digit(0)), Dictionary(map[[97] := Integer(0), [98] := Integer(0)]);
    TwoEntriesShape(98, ZERO, 97, ZERO);
    InfoFileShape(value);
    TwoEntriesDecode(InfoFile(value), [], 7, 98, 0, 97, 0);
    assert info.dict == map[[98] := Integer(0)][[97] := Integer(0)];
    InfoFileDecodes(value, info);
    UnsortedKeys();
  }
}
