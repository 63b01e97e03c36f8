/** What printed values look like byte by byte, and exactly which texts are read as numbers. */
module BencodeText {
  import opened Base
  import opened Bencode
  import opened BencodeRoundTrip

  /** The token bytes of BEP 3. */
  lemma Tokens()
    ensures [INTEGER, LIST, DICTIONARY, END] == Ascii("ilde")
    ensures [DELIMITER, MINUS, PLUS, ZERO] == Ascii(":-+0")
    ensures forall b: byte :: IsDigit(b) <==> b in Ascii("0123456789")
  {
    forall b: byte
      ensures IsDigit(b) <==> b in Ascii("0123456789")
    {
      if IsDigit(b) {
        assert Ascii("0123456789")[b - 48] == b;
      }
    }
  }

  // ---------- Decimal notation ----------

  /** A number with `k` zeros behind it. */
  function Shifted(x: int, k: nat): int {
    if k == 0 then x else 10 * Shifted(x, k - 1)
  }

  /** The value of a digit string, most significant digit first. */
  function Positional(s: Bytes): int {
    if |s| == 0 then 0 else Shifted(s[0] as int - '0' as int, |s| - 1) + Positional(s[1..])
  }

  lemma {:induction false} PositionalSnoc(s: Bytes, d: byte)
    ensures Positional(s + [d]) == 10 * Positional(s) + (d as int - '0' as int)
    decreases |s|
  {
    if |s| == 0 {
      assert s + [d] == [d] && [d][1..] == [];
    } else {
      assert (s + [d])[1..] == s[1..] + [d];
      PositionalSnoc(s[1..], d);
    }
  }

  /** A text is read as digits exactly if it has some and nothing else, and for its positional value. */
  lemma {:induction false} DigitsExact(s: Bytes)
    ensures ParseDigits(s).Some? <==> |s| > 0 && AllDigits(s)
    ensures ParseDigits(s).Some? ==> ParseDigits(s).value == Positional(s)
  {
    hide Positional;
    if |s| > 0 {
      var front, last := s[..|s| - 1], s[|s| - 1];
      assert s == front + [last];
      DigitsExact(front);
      PositionalSnoc(front, last);
      NoDigits();
      assert |s| == 1 ==> front == [];
    }
  }

  lemma NoDigits()
    ensures Positional([]) == 0
  {
  }

  /** The text without its sign. */
  function Unsigned(s: Bytes): Bytes {
    if |s| > 0 && (s[0] == '-' as int || s[0] == '+' as int) then s[1..] else s
  }

  predicate Negative(s: Bytes) {
    |s| > 0 && s[0] == '-' as int
  }

  /**
    `strconv.ParseInt(s, 10, 64)`: an optional sign and at least one digit, for a value between
    -2^63 and 2^63 - 1.
   */
  lemma ParseIntExact(s: Bytes)
    ensures var digits := Unsigned(s);
            && (ParseInt(s).Some? <==>
                  && |digits| > 0 && AllDigits(digits)
                  && (if Negative(s) then Positional(digits) <= 9223372036854775808
                      else Positional(digits) <= 9223372036854775807))
            && (ParseInt(s).Some? ==>
                  ParseInt(s).value == if Negative(s) then -Positional(digits) else Positional(digits))
  {
    hide Positional, ParseDigits;
    Tokens();
    DigitsExact(Unsigned(s));
  }

  /** A number prints as its decimal digits, without leading zeros and with a minus sign if negative. */
  lemma NumberPrints(i: int)
    ensures var s := Number(i);
            && Numeral(Unsigned(s)) && (Negative(s) <==> i < 0)
            && Positional(Unsigned(s)) == (if i < 0 then -i else i)
  {
    hide Positional, ParseDigits, Decimal;
    Tokens();
    var n := if i < 0 then -i else i;
    DecimalIsNumeral(n);
    DigitsExact(Decimal(n));
    if i < 0 {
      assert Number(i)[1..] == Decimal(n);
    }
  }

  // ---------- Reading ----------

  /** Reading `i`, a text without an `e`, and `e`. */
  lemma IntegerExact(t: Bytes, src: Bytes, p: nat)
    requires At(src, p, Ascii("i") + t + Ascii("e")) && 'e' as int !in t
    ensures p < |src|
    ensures DecodeInteger(src, p)
         == if |t| > 1 && t[0] == '0' as int then Bad
            else if ParseInt(t).None? then Bad
            else Ok(ParseInt(t).value, p + |t| + 1)
  {
    hide ParseInt;
    AtSplit(src, p, Ascii("i") + t, Ascii("e"));
    AtSplit(src, p, Ascii("i"), t);
    assert src[p + 0] == Ascii("i")[0];
    var end := p + 1 + |t|;
    assert src[end + 0] == Ascii("e")[0];
    forall j | p + 1 <= j < end
      ensures src[j] != END
    {
      assert src[p + 1 + (j - p - 1)] == t[j - p - 1];
    }
    AdvanceTo(src, p + 1, end, END);
    if |t| > 0 {
      assert src[p + 1 + 0] == t[0];
    }
  }

  /** Reading a text without a colon, a colon, and as many bytes as the text says. */
  lemma StringExact(t: Bytes, src: Bytes, spare: Bytes, p: nat)
    requires At(src, p, t + Ascii(":")) && ':' as int !in t
    ensures var start := p + |t| + 1;
            DecodeString(src, spare, p)
            == match ParseInt(t)
               case None => Bad
               case Some(l) =>
                 if l < 0 || start + l > |src| + |spare| then OutOfBounds
                 else Ok((src + spare)[start..start + l], start + l - 1)
  {
    hide ParseInt;
    AtSplit(src, p, t, Ascii(":"));
    var delim := p + |t|;
    assert src[delim + 0] == Ascii(":")[0];
    forall j | p <= j < delim
      ensures src[j] != DELIMITER
    {
      assert src[p + (j - p)] == t[j - p];
    }
    AdvanceTo(src, p, delim, DELIMITER);
  }

  // ---------- Printed values ----------

  /** Strings, integers and lists in full, and the entries of a dictionary by its sorted keys. */
  lemma LiteralsExact(v: Value)
    ensures match v
            case Integer(i) => Literal(v) == Ascii("i") + Number(i) + Ascii("e")
            case ByteString(s) => Literal(v) == Number(|s|) + Ascii(":") + s
            case List(items) =>
              && (items == [] ==> Literal(v) == Ascii("le"))
              && (items != [] ==> Literal(v) == Ascii("l") + Literal(items[0]) + Literal(List(items[1..]))[1..])
            case Dictionary(dict) => dict == map[] ==> Literal(v) == Ascii("de")
  {
    match v
    case Integer(i) =>
    case ByteString(s) =>
    case List(items) => ListText(items);
    case Dictionary(dict) =>
      if dict == map[] {
        SortedKeysUnique([], dict.Keys);
      }
  }

  lemma ListText(items: seq<Value>)
    ensures items == [] ==> Literal(List(items)) == Ascii("le")
    ensures items != [] ==> Literal(List(items)) == Ascii("l") + Literal(items[0]) + Literal(List(items[1..]))[1..]
  {
    if items != [] {
      var rest := Literal(List(items[1..]));
      assert rest[1..] == ItemsLiteral(items[1..]) + [END];
      assert Literal(List(items)) == [LIST] + (Literal(items[0]) + ItemsLiteral(items[1..])) + [END];
      assert Ascii("l") == [LIST];
    }
  }

  /** Keys are printed in byte order, not in the order of their lengths. */
  lemma LengthBeforeName()
    ensures Literal(Dictionary(map[Ascii("name") := ByteString(Ascii("a")), Ascii("length") := Integer(1)]))
         == Ascii("d6:lengthi1e4:name1:ae")
  {
    var length, name := Ascii("length"), Ascii("name");
    var v := Dictionary(map[name := ByteString(Ascii("a")), length := Integer(1)]);
    assert ComesFirst(length, name, 0);
    LessExact(length, name);
    LessTotal(length, name);
    SortedKeysUnique([length, name], v.dict.Keys);
    hide Less, SortedKeys, Ascii, StringLiteral;
    var one: seq<Bytes> := [name];
    assert [length, name][1..] == one && one[1..] == [];
    Pieces();
    EntryText(v, [length, name], Ascii("6:length") + Ascii("i1e"));
    EntryText(v, one, Ascii("4:name") + Ascii("1:a"));
    Joined();
  }

  lemma Pieces()
    ensures StringLiteral(Ascii("length")) == Ascii("6:length") && StringLiteral(Ascii("name")) == Ascii("4:name")
    ensures Literal(Integer(1)) == Ascii("i1e") && Literal(ByteString(Ascii("a"))) == Ascii("1:a")
  {
    assert Decimal(4) == [52] && Decimal(6) == [54] && Decimal(1) == [49];
  }

  lemma Joined()
    ensures [DICTIONARY] + ((Ascii("6:length") + Ascii("i1e")) + ((Ascii("4:name") + Ascii("1:a")) + [])) + [END]
         == Ascii("d6:lengthi1e4:name1:ae")
  {
  }

  lemma EntryText(v: Value, keys: seq<Bytes>, text: Bytes)
    requires v.Dictionary? && |keys| > 0 && forall k <- keys :: k in v.dict
    requires text == StringLiteral(keys[0]) + Literal(v.dict[keys[0]])
    ensures EntriesLiteral(v, keys) == text + EntriesLiteral(v, keys[1..])
  {
  }
}
