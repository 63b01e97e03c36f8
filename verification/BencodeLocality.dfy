/**
  What the decoder returns depends on the bytes up to the end of the value only, and so it is
  known exactly which truncated prints it accepts: some strings, out of the slice's spare capacity.
 */
module BencodeLocality {
  import opened Base
  import opened Bencode
  import opened BencodeRoundTrip

  /**
    Two slices hold the same bytes up to and including `end`, and the second is as long as the
    first or at least reaches beyond `end`.
   */
  ghost predicate Agree(src: Bytes, spare: Bytes, src': Bytes, spare': Bytes, end: nat) {
    && end < |src| + |spare| && end < |src'| + |spare'|
    && (|src| <= |src'| || end < |src'|)
    && (src + spare)[..end + 1] == (src' + spare')[..end + 1]
  }

  lemma AgreeBefore(src: Bytes, spare: Bytes, src': Bytes, spare': Bytes, end: nat, e: nat)
    requires Agree(src, spare, src', spare', end) && e <= end
    ensures Agree(src, spare, src', spare', e)
    ensures e < |src| ==> e < |src'| && src[e] == src'[e]
  {
    var a, b := src + spare, src' + spare';
    assert a[..e + 1] == a[..end + 1][..e + 1] == b[..e + 1];
    assert a[..e + 1][e] == b[..e + 1][e];
  }

  lemma {:induction false} AdvanceAlike(src: Bytes, src': Bytes, p: nat, k: nat, tok: byte)
    requires p <= |src| && AdvanceUntil(src, p, tok) == Some(k)
    requires k < |src'| && forall j :: p <= j <= k ==> j < |src| && src[j] == src'[j]
    ensures p <= k && AdvanceUntil(src', p, tok) == Some(k)
    decreases |src| - p
  {
    AdvanceUntilFinds(src, p, tok);
    if src[p] != tok {
      AdvanceAlike(src, src', p + 1, k, tok);
    }
  }

  /** Up to a position both slices hold, they can be read alike. */
  lemma Alike(src: Bytes, spare: Bytes, src': Bytes, spare': Bytes, end: nat, k: nat)
    requires Agree(src, spare, src', spare', end) && k <= end && k < |src|
    ensures k < |src'| && forall j :: 0 <= j <= k ==> src[j] == src'[j]
  {
    AgreeBefore(src, spare, src', spare', end, k);
    forall j | 0 <= j <= k
      ensures src[j] == src'[j]
    {
      AgreeBefore(src, spare, src', spare', end, j);
    }
  }

  lemma StringAlike(src: Bytes, spare: Bytes, p: nat, src': Bytes, spare': Bytes)
    requires p <= |src| && DecodeString(src, spare, p).Ok?
    requires Agree(src, spare, src', spare', DecodeString(src, spare, p).end)
    ensures p < |src'| && DecodeString(src', spare', p) == DecodeString(src, spare, p)
  {
    hide ParseInt;
    var end := DecodeString(src, spare, p).end;
    var delim := AdvanceUntil(src, p, DELIMITER).value;
    AdvanceUntilFinds(src, p, DELIMITER);
    Alike(src, spare, src', spare', end, delim);
    AdvanceAlike(src, src', p, delim, DELIMITER);
    assert src[p..delim] == src'[p..delim];
    var start := delim + 1;
    assert (src + spare)[start..end + 1] == (src + spare)[..end + 1][start..];
    assert (src' + spare')[start..end + 1] == (src' + spare')[..end + 1][start..];
  }

  lemma IntegerAlike(src: Bytes, spare: Bytes, p: nat, src': Bytes, spare': Bytes)
    requires p < |src| && DecodeInteger(src, p).Ok?
    requires Agree(src, spare, src', spare', DecodeInteger(src, p).end)
    ensures p < |src'| && DecodeInteger(src', p) == DecodeInteger(src, p)
  {
    hide ParseInt;
    var end := AdvanceUntil(src, p + 1, END).value;
    AdvanceUntilFinds(src, p + 1, END);
    Alike(src, spare, src', spare', end, end);
    AdvanceAlike(src, src', p + 1, end, END);
    assert src[p + 1..end] == src'[p + 1..end];
  }

  /**
    What stands behind an accepted value, and whether its last bytes lie in the input or in its
    spare capacity, changes neither the value nor where it ends.
   */
  lemma {:induction false} ValueAlike(src: Bytes, spare: Bytes, p: nat, src': Bytes, spare': Bytes)
    requires p < |src| && DecodeValue(src, spare, p).Ok?
    requires Agree(src, spare, src', spare', DecodeValue(src, spare, p).end)
    ensures p < |src'| && DecodeValue(src', spare', p) == DecodeValue(src, spare, p)
    decreases |src| - p, 1
  {
    hide DecodeString, DecodeInteger, ListFrom, DictionaryFrom;
    AgreeBefore(src, spare, src', spare', DecodeValue(src, spare, p).end, p);
    hide Agree;
    if src[p] == LIST {
      ItemsAlike(src, spare, p, src', spare', []);
    } else if src[p] == DICTIONARY {
      EntriesAlike(src, spare, p, src', spare', map[]);
    } else if src[p] == INTEGER {
      IntegerAlike(src, spare, p, src', spare');
    } else {
      StringAlike(src, spare, p, src', spare');
    }
  }

  lemma {:induction false} ItemsAlike(src: Bytes, spare: Bytes, p: nat, src': Bytes, spare': Bytes, done: seq<Value>)
    requires ListFrom(src, spare, p, done).Ok?
    requires Agree(src, spare, src', spare', ListFrom(src, spare, p, done).end)
    ensures p < |src'| && ListFrom(src', spare', p, done) == ListFrom(src, spare, p, done)
    decreases Behind(src, p), 0
  {
    hide DecodeValue, Agree;
    var end := ListFrom(src, spare, p, done).end;
    AgreeBefore(src, spare, src', spare', end, p + 1);
    if src[p + 1] != END {
      var r := DecodeValue(src, spare, p + 1);
      AgreeBefore(src, spare, src', spare', end, r.end);
      ValueAlike(src, spare, p + 1, src', spare');
      ItemsAlike(src, spare, r.end, src', spare', done + [r.value]);
    }
  }

  lemma {:induction false} EntriesAlike(src: Bytes, spare: Bytes, p: nat, src': Bytes, spare': Bytes, done: map<Bytes, Value>)
    requires DictionaryFrom(src, spare, p, done).Ok?
    requires Agree(src, spare, src', spare', DictionaryFrom(src, spare, p, done).end)
    ensures p < |src'| && DictionaryFrom(src', spare', p, done) == DictionaryFrom(src, spare, p, done)
    decreases Behind(src, p), 0
  {
    hide DecodeValue, DecodeString, Agree;
    var end := DictionaryFrom(src, spare, p, done).end;
    AgreeBefore(src, spare, src', spare', end, p + 1);
    if src[p + 1] != END {
      var k := DecodeString(src, spare, p + 1);
      AgreeBefore(src, spare, src', spare', end, k.end);
      StringAlike(src, spare, p + 1, src', spare');
      var r := DecodeValue(src, spare, k.end + 1);
      AgreeBefore(src, spare, src', spare', end, k.end + 1);
      AgreeBefore(src, spare, src', spare', end, r.end);
      ValueAlike(src, spare, k.end + 1, src', spare');
      EntriesAlike(src, spare, r.end, src', spare', done[k.value := r.value]);
    }
  }

  // ---------- Truncated input ----------

  /** A cut print that is accepted within its own length would have been longer. */
  lemma CutEndsOutside(v: Value, n: nat, spare: Bytes)
    requires Valid(v) && 0 < n < |Literal(v)|
    requires DecodeValue(Literal(v)[..n], spare, 0).Ok?
    ensures n <= DecodeValue(Literal(v)[..n], spare, 0).end
  {
    hide Literal, DecodeValue, Valid;
    var text, cut := Literal(v), Literal(v)[..n];
    var end := DecodeValue(cut, spare, 0).end;
    RoundTrip(v, text, [], 0);
    if end < n {
      assert (cut + spare)[..end + 1] == text[..end + 1] == (text + [])[..end + 1];
      ValueAlike(cut, spare, 0, text, []);
    }
  }

  /** A string print cut behind its colon is read on into the spare capacity. */
  lemma CutString(s: Bytes, n: nat, spare: Bytes)
    requires |s| < I64 && 0 < n < |StringLiteral(s)|
    ensures var text, start := StringLiteral(s), |Decimal(|s|)| + 1;
            DecodeString(text[..n], spare, 0)
            == if n < start then Bad
               else if |text| <= n + |spare| then Ok((text[..n] + spare)[start..|text|], |text| - 1)
               else OutOfBounds
  {
    hide Decimal, ParseDigits;
    var digits, cut := Decimal(|s|), StringLiteral(s)[..n];
    DecimalIsNumeral(|s|);
    assert forall j :: 0 <= j < |digits| && j < n ==> cut[j] == digits[j];
    if n <= |digits| {
      AdvanceUntilFinds(cut, 0, DELIMITER);
    } else {
      AdvanceTo(cut, 0, |digits|, DELIMITER);
      assert cut[0..|digits|] == digits;
      assert IsDigit(digits[0]);
      assert ParseInt(digits) == Some(|s|);
    }
  }

  /**
    A print that lost its tail is accepted if and only if it is a string's, the cut lies behind
    the colon, and the slice's capacity reaches to where the print would have ended. The string
    is then filled up with whatever the spare capacity holds.
   */
  lemma TruncationExact(v: Value, n: nat, spare: Bytes)
    requires Valid(v) && 0 < n < |Literal(v)|
    ensures var r := DecodeValue(Literal(v)[..n], spare, 0);
            && (r.Ok? <==> v.ByteString? && |Decimal(|v.s|)| < n && |Literal(v)| <= n + |spare|)
            && (r.Ok? ==> r.end == |Literal(v)| - 1
                          && r.value == ByteString((Literal(v)[..n] + spare)[|Decimal(|v.s|)| + 1..|Literal(v)|]))
  {
    hide DecodeString, DecodeInteger, ListFrom, DictionaryFrom, Decimal;
    var cut := Literal(v)[..n];
    LiteralHead(v);
    assert cut[0] == Literal(v)[0];
    if v.ByteString? {
      CutString(v.s, n, spare);
    } else if DecodeValue(cut, spare, 0).Ok? {
      CutEndsOutside(v, n, spare);
    }
  }

  /** The cut print `5:hel` is accepted out of two spare bytes, as a string that ends in them. */
  lemma CutIsAccepted(a: byte, b: byte)
    ensures DecodeValue([53, DELIMITER, 104, 101, 108], [a, b], 0) == Ok(ByteString([104, 101, 108, a, b]), 6)
  {
    var s: Bytes := [104, 101, 108, 108, 111];
    var text := [53, DELIMITER] + s;
    assert Decimal(5) == [53];
    assert Literal(ByteString(s)) == text;
    assert text[..5] == [53, DELIMITER, 104, 101, 108];
    TruncationExact(ByteString(s), 5, [a, b]);
    assert (text[..5] + [a, b])[2..7] == [104, 101, 108, a, b];
  }

  // ---------- How cut containers are refused ----------

  /** A byte that starts no value is refused. */
  lemma NoValue(src: Bytes, spare: Bytes, p: nat)
    requires p < |src| && src[p] !in Ascii("lid0123456789")
    ensures DecodeValue(src, spare, p) == Bad
  {
    forall b | IsDigit(b)
      ensures b in Ascii("lid0123456789")
    {
      assert Ascii("lid0123456789")[b - 45] == b;
    }
    assert Ascii("lid")[0] == Ascii("lid0123456789")[0] == LIST;
    assert Ascii("lid0123456789")[1] == INTEGER && Ascii("lid0123456789")[2] == DICTIONARY;
  }

  /** A list that ends with one of its items, or with nothing, is an error and no panic. */
  lemma {:induction false} CutItems(items: seq<Value>, src: Bytes, spare: Bytes, p: nat, done: seq<Value>)
    requires forall i :: 0 <= i < |items| ==> Valid(items[i])
    requires At(src, p + 1, ItemsLiteral(items)) && p + 1 + |ItemsLiteral(items)| == |src|
    ensures ListFrom(src, spare, p, done) == Bad
    decreases |items|
  {
    hide DecodeValue, Literal, Valid;
    if |items| > 0 {
      var end := p + |Literal(items[0])|;
      AtSplit(src, p + 1, Literal(items[0]), ItemsLiteral(items[1..]));
      LiteralHead(items[0]);
      assert src[p + 1 + 0] == Literal(items[0])[0];
      RoundTrip(items[0], src, spare, p + 1);
      ItemStep(src, spare, p, done, items[0], end);
      CutItems(items[1..], src, spare, end, done + [items[0]]);
    }
  }

  lemma CutList(items: seq<Value>, spare: Bytes)
    requires forall i :: 0 <= i < |items| ==> Valid(items[i])
    ensures DecodeValue(Ascii("l") + ItemsLiteral(items), spare, 0) == Bad
  {
    hide ListFrom, DictionaryFrom, ItemsLiteral, DecodeInteger, DecodeString;
    var src := Ascii("l") + ItemsLiteral(items);
    assert src[0] == LIST;
    assert src[1..1 + |ItemsLiteral(items)|] == ItemsLiteral(items);
    CutItems(items, src, spare, 0, []);
  }

  /** A dictionary that ends with one of its entries is an error; one that ends with a key makes Go panic. */
  lemma {:induction false} CutEntries(v: Value, keys: seq<Bytes>, src: Bytes, spare: Bytes, p: nat, done: map<Bytes, Value>)
    requires v.Dictionary? && Valid(v) && forall k <- keys :: k in v.dict
    requires At(src, p + 1, EntriesLiteral(v, keys)) && p + 1 + |EntriesLiteral(v, keys)| == |src|
    ensures DictionaryFrom(src, spare, p, done) == Bad
    decreases |keys|
  {
    hide DecodeValue, DecodeString, Literal, StringLiteral, Valid, EntriesLiteral;
    if |keys| > 0 {
      var end := CutEntry(v, keys, src, spare, p, done);
      CutEntries(v, keys[1..], src, spare, end, done[keys[0] := v.dict[keys[0]]]);
    } else {
      NoEntries(v);
    }
  }

  lemma NoEntries(v: Value)
    requires v.Dictionary?
    ensures EntriesLiteral(v, []) == []
  {
  }

  /** The loop reads the first entry and stands before the others. */
  lemma CutEntry(v: Value, keys: seq<Bytes>, src: Bytes, spare: Bytes, p: nat, done: map<Bytes, Value>) returns (end: nat)
    requires v.Dictionary? && Valid(v) && |keys| > 0 && forall k <- keys :: k in v.dict
    requires At(src, p + 1, EntriesLiteral(v, keys)) && p + 1 + |EntriesLiteral(v, keys)| == |src|
    ensures At(src, end + 1, EntriesLiteral(v, keys[1..])) && end + 1 + |EntriesLiteral(v, keys[1..])| == |src|
    ensures DictionaryFrom(src, spare, p, done) == DictionaryFrom(src, spare, end, done[keys[0] := v.dict[keys[0]]])
  {
    hide DecodeValue, DecodeString, DictionaryFrom, Literal, StringLiteral, EntriesLiteral, Valid, At;
    var k := keys[0];
    var value := v.dict[k];
    var last := FirstEntry(v, keys, src, p);
    end := last + |Literal(value)|;
    ValidEntry(v, k);
    StringRoundTrip(k, src, spare, p + 1);
    RoundTrip(value, src, spare, last + 1);
    EntryStep(src, spare, p, done, k, last, value, end);
  }

  lemma ValidEntry(v: Value, k: Bytes)
    requires v.Dictionary? && Valid(v) && k in v.dict
    ensures |k| < I64 && Valid(v.dict[k])
  {
  }

  /** Where the first entry stands, up to the last byte of its key, and the others behind it. */
  lemma FirstEntry(v: Value, keys: seq<Bytes>, src: Bytes, p: nat) returns (last: nat)
    requires v.Dictionary? && |keys| > 0 && forall k <- keys :: k in v.dict
    requires At(src, p + 1, EntriesLiteral(v, keys)) && p + 1 + |EntriesLiteral(v, keys)| == |src|
    ensures var k := keys[0];
            var end := last + |Literal(v.dict[k])|;
            && last == p + |StringLiteral(k)| && At(src, p + 1, StringLiteral(k)) && src[p + 1] != END
            && At(src, last + 1, Literal(v.dict[k])) && |Literal(v.dict[k])| > 0
            && At(src, end + 1, EntriesLiteral(v, keys[1..])) && end + 1 + |EntriesLiteral(v, keys[1..])| == |src|
  {
    hide Literal, StringLiteral;
    var key, value, rest := StringLiteral(keys[0]), Literal(v.dict[keys[0]]), EntriesLiteral(v, keys[1..]);
    last := p + |key|;
    assert EntriesLiteral(v, keys) == key + (value + rest);
    AtSplit(src, p + 1, key, value + rest);
    AtSplit(src, last + 1, value, rest);
    StringHead(keys[0]);
    LiteralHead(v.dict[keys[0]]);
    assert src[p + 1 + 0] == key[0];
  }

  lemma CutAfterKey(k: Bytes, spare: Bytes)
    requires |k| < I64
    ensures DecodeValue(Ascii("d") + StringLiteral(k), spare, 0) == OutOfBounds
  {
    hide DecodeString, DecodeInteger, ListFrom, StringLiteral;
    var src := Ascii("d") + StringLiteral(k);
    assert src[0] == DICTIONARY;
    assert src[1..1 + |StringLiteral(k)|] == StringLiteral(k);
    StringHead(k);
    assert src[1] == StringLiteral(k)[0];
    StringRoundTrip(k, src, spare, 1);
  }
}
