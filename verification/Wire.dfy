/** The peer protocol on the wire: encodings, and framing over a byte stream. */
module Wire {
  import opened Base
  import M = Messages

  datatype Message =
    | KeepAlive
    | Choke
    | Unchoke
    | Interest
    | NotInterest
    | Have(index: int)
    | Bitfield(bits: Bytes)
    | Request(request: M.Request)
    | Piece(piece: M.Piece)
    | Cancel(cancel: M.Request)
    | Port(port: int)

  // ---------- Encoding ----------

  function Low(n: int): byte {
    n % 256
  }

  /** `binary.BigEndian.PutUint32`, most significant byte first. */
  function PutU32(n: int): (b: Bytes)
    ensures |b| == 4
  {
    [Low(n / 0x100_0000), Low(n / 0x1_0000), Low(n / 0x100), Low(n)]
  }

  function GetU32(b: Bytes, at: nat): int
    requires at + 4 <= |b|
  {
    var b0: int, b1: int, b2: int, b3: int := b[at], b[at + 1], b[at + 2], b[at + 3];
    ((b0 * 256 + b1) * 256 + b2) * 256 + b3
  }

  /** The `MessageType` of a message; keep-alives have no type byte on the wire. */
  function Id(m: Message): int {
    match m
    case KeepAlive => -1
    case Choke => 0
    case Unchoke => 1
    case Interest => 2
    case NotInterest => 3
    case Have(_) => 4
    case Bitfield(_) => 5
    case Request(_) => 6
    case Piece(_) => 7
    case Cancel(_) => 8
    case Port(_) => 9
  }

  function Triple(r: M.Request): Bytes {
    PutU32(r.index) + PutU32(r.begin) + PutU32(r.length)
  }

  function Payload(m: Message): Bytes {
    match m
    case Have(index) => PutU32(index)
    case Bitfield(bits) => bits
    case Request(r) => Triple(r)
    case Piece(p) => PutU32(p.index) + PutU32(p.begin) + p.block
    case Cancel(r) => Triple(r)
    case Port(port) => [Low(port / 256), Low(port)]
    case _ => []
  }

  /** A length prefix, computed in 32 bits, a type byte and a payload. */
  function Frame(id: byte, payload: Bytes): Bytes {
    PutU32(ToU32(1 + |payload|)) + [id] + payload
  }

  function Serialize(m: Message): Bytes {
    if m == KeepAlive then [0, 0, 0, 0] else Frame(Id(m), Payload(m))
  }

  // ---------- Decoding ----------

  datatype Raw = Raw(kind: int, payload: Bytes)

  /** What one call of `Identify` does to a stream: an error that eats it, or the rest of it. */
  datatype Read = Truncated | Unknown(id: byte, rest: Bytes) | Got(raw: Raw, rest: Bytes)

  /** The conversion of a byte to the `int8` underlying `MessageType`. */
  function Kind(id: byte): int {
    if id >= 128 then id - 256 else id
  }

  function Identify(s: Bytes): Read {
    if |s| < 4 then Truncated
    else
      var l := GetU32(s, 0);
      if l == 0 then Got(Raw(-1, []), s[4..])
      else if |s| < 4 + l then Truncated
      else
        var kind, payload, rest := Kind(s[4]), s[5..4 + l], s[4 + l..];
        if 0 <= kind <= 3 then Got(Raw(kind, []), rest)
        else if 4 <= kind <= 9 then Got(Raw(kind, payload), rest)
        else Unknown(s[4], rest)
  }

  function ParseTriple(b: Bytes): Option<M.Request> {
    if |b| != 12 then None
    else
      var r := M.Request(GetU32(b, 0), GetU32(b, 4), GetU32(b, 8));
      if M.Validate(r) then Some(r) else None
  }

  /** The `Deserialize` method a frame is dispatched to. */
  function Parse(raw: Raw): Option<Message> {
    var b := raw.payload;
    match raw.kind
    case -1 => Some(KeepAlive)
    case 0 => Some(Choke)
    case 1 => Some(Unchoke)
    case 2 => Some(Interest)
    case 3 => Some(NotInterest)
    case 4 => if |b| == 4 then Some(Have(GetU32(b, 0))) else None
    case 5 => Some(Bitfield(b))
    case 6 => (match ParseTriple(b) case None => None case Some(r) => Some(Request(r)))
    case 7 => if |b| < 9 then None else Some(Piece(M.Piece(GetU32(b, 0), GetU32(b, 4), b[8..])))
    case 8 => (match ParseTriple(b) case None => None case Some(r) => Some(Cancel(r)))
    case 9 => if |b| == 2 then Some(Port(b[0] as int * 256 + b[1] as int)) else None
    case _ => None
  }

  // ---------- Round trips ----------

  lemma U32RoundTrip(n: int, b: Bytes, at: nat)
    requires M.InU32(n) && at + 4 <= |b| && b[at..at + 4] == PutU32(n)
    ensures GetU32(b, at) == n
  {
    var x := b[at..at + 4];
    assert x[0] == b[at] && x[1] == b[at + 1] && x[2] == b[at + 2] && x[3] == b[at + 3];
    assert n / 0x1_0000 == n / 0x100 / 0x100 && n / 0x100_0000 == n / 0x1_0000 / 0x100;
  }

  /** The fields of a message as Go's types hold them. */
  predicate Typed(m: Message) {
    match m
    case Have(index) => M.InU32(index)
    case Request(r) => M.InU32(r.index) && M.InU32(r.begin) && M.InU32(r.length)
    case Piece(p) => M.InU32(p.index) && M.InU32(p.begin)
    case Cancel(r) => M.InU32(r.index) && M.InU32(r.begin) && M.InU32(r.length)
    case Port(port) => 0 <= port < 0x1_0000
    case _ => true
  }

  /** What deserializing checks: requests stay within the block size, pieces are not empty. */
  predicate Acceptable(m: Message) {
    match m
    case Request(r) => M.Validate(r)
    case Cancel(r) => M.Validate(r)
    case Piece(p) => p.block != []
    case _ => true
  }

  lemma TripleRoundTrip(r: M.Request)
    requires M.InU32(r.index) && M.InU32(r.begin) && M.InU32(r.length)
    ensures ParseTriple(Triple(r)) == if M.Validate(r) then Some(r) else None
  {
    var b := Triple(r);
    assert b[0..4] == PutU32(r.index) && b[4..8] == PutU32(r.begin) && b[8..12] == PutU32(r.length);
    U32RoundTrip(r.index, b, 0);
    U32RoundTrip(r.begin, b, 4);
    U32RoundTrip(r.length, b, 8);
  }

  /** Deserializing a message's frame gives the message back exactly when it is acceptable. */
  lemma ParseExact(m: Message)
    requires Typed(m)
    ensures Parse(Raw(Id(m), Payload(m))) == Some(m) <==> Acceptable(m)
    ensures !Acceptable(m) ==> Parse(Raw(Id(m), Payload(m))) == None
  {
    var b := Payload(m);
    match m
    case Have(index) => U32RoundTrip(index, b, 0);
    case Request(r) => TripleRoundTrip(r);
    case Cancel(r) => TripleRoundTrip(r);
    case Piece(p) =>
      assert b[0..4] == PutU32(p.index) && b[4..8] == PutU32(p.begin) && b[8..] == p.block;
      U32RoundTrip(p.index, b, 0);
      U32RoundTrip(p.begin, b, 4);
    case _ =>
  }

  /** What reading a frame in front of `rest` should come to: bare messages lose their payload. */
  function Expected(id: byte, payload: Bytes, rest: Bytes): Read {
    if id <= 3 then Got(Raw(id, []), rest)
    else if id <= 9 then Got(Raw(id, payload), rest)
    else Unknown(id, rest)
  }

  /**
    A frame followed by anything is read back, and read alone, exactly when its length fits
    the 32-bit prefix; longer payloads desynchronise the stream.
   */
  lemma FramingExact(id: byte, payload: Bytes, rest: Bytes)
    ensures Identify(Frame(id, payload) + rest) == Expected(id, payload, rest) <==> 1 + |payload| < U32
  {
    var s, n := Frame(id, payload) + rest, ToU32(1 + |payload|);
    if 1 + |payload| < U32 {
      FrameIsRead(id, payload, rest);
    } else {
      assert s[0..4] == PutU32(n);
      U32RoundTrip(n, s, 0);
    }
  }

  /** Nothing read from the wire is too long for a 32-bit length. */
  lemma BlocksFit(s: Bytes)
    requires Identify(s).Got? && Parse(Identify(s).raw).Some? && Parse(Identify(s).raw).value.Piece?
    ensures |Parse(Identify(s).raw).value.piece.block| < U32
  {
  }

  // ---------- The bytes on the wire ----------

  /** Four bytes, the most significant one first. */
  predicate BigEndian(b: Bytes, at: nat, n: int)
    requires at + 4 <= |b|
  {
    n == b[at] as int * 0x100_0000 + b[at + 1] as int * 0x1_0000 + b[at + 2] as int * 0x100 + b[at + 3] as int
  }

  lemma U32Exact(n: int, b: Bytes, at: nat)
    requires M.InU32(n) && at + 4 <= |b|
    ensures BigEndian(PutU32(n), 0, n) && BigEndian(b, at, GetU32(b, at))
    ensures b[at..at + 4] == PutU32(n) ==> BigEndian(b, at, n)
  {
    assert n / 0x1_0000 == n / 0x100 / 0x100 && n / 0x100_0000 == n / 0x1_0000 / 0x100;
    if b[at..at + 4] == PutU32(n) {
      U32RoundTrip(n, b, at);
    }
  }

  /**
    The message types by number, and what follows the length prefix and the type byte: nothing,
    an index, raw bytes, three numbers, two numbers and a block, or a port of two bytes.
   */
  lemma SerializeExact(m: Message)
    requires Typed(m) && 1 + |Payload(m)| < U32
    ensures var s := Serialize(m);
            match m
            case KeepAlive => s == [0, 0, 0, 0]
            case Choke => s == [0, 0, 0, 1, 0]
            case Unchoke => s == [0, 0, 0, 1, 1]
            case Interest => s == [0, 0, 0, 1, 2]
            case NotInterest => s == [0, 0, 0, 1, 3]
            case Have(index) => |s| == 9 && s[..5] == [0, 0, 0, 5, 4] && BigEndian(s, 5, index)
            case Bitfield(bits) => |s| == 5 + |bits| && BigEndian(s, 0, 1 + |bits|) && s[4] == 5 && s[5..] == bits
            case Request(r) => s[..5] == [0, 0, 0, 13, 6] && HoldsTriple(s, r)
            case Piece(p) => HoldsPiece(s, p)
            case Cancel(r) => s[..5] == [0, 0, 0, 13, 8] && HoldsTriple(s, r)
            case Port(port) => |s| == 7 && s[..5] == [0, 0, 0, 3, 9] && port == s[5] as int * 0x100 + s[6] as int
  {
    hide Serialize, BigEndian;
    match m
    case Have(index) => HaveBytes(index);
    case Bitfield(bits) => BitfieldBytes(bits);
    case Request(r) => RequestBytes(r);
    case Cancel(r) => RequestBytes(r);
    case Piece(p) => PieceBytes(p);
    case _ => ShortBytes(m);
  }

  lemma ShortBytes(m: Message)
    requires Typed(m)
    ensures match m
            case KeepAlive => Serialize(m) == [0, 0, 0, 0]
            case Choke => Serialize(m) == [0, 0, 0, 1, 0]
            case Unchoke => Serialize(m) == [0, 0, 0, 1, 1]
            case Interest => Serialize(m) == [0, 0, 0, 1, 2]
            case NotInterest => Serialize(m) == [0, 0, 0, 1, 3]
            case Port(port) =>
              var s := Serialize(m);
              |s| == 7 && s[..5] == [0, 0, 0, 3, 9] && port == s[5] as int * 0x100 + s[6] as int
            case _ => true
  {
    assert PutU32(1) == [0, 0, 0, 1] && PutU32(3) == [0, 0, 0, 3];
    hide PutU32;
  }

  lemma HaveBytes(index: int)
    requires M.InU32(index)
    ensures var s := Serialize(Have(index));
            |s| == 9 && s[..5] == [0, 0, 0, 5, 4] && BigEndian(s, 5, index)
  {
    assert PutU32(5) == [0, 0, 0, 5];
    hide PutU32, BigEndian;
    NumberAt(Serialize(Have(index)), [0, 0, 0, 5, 4], index, []);
  }

  lemma BitfieldBytes(bits: Bytes)
    requires 1 + |bits| < U32
    ensures var s := Serialize(Bitfield(bits));
            |s| == 5 + |bits| && BigEndian(s, 0, 1 + |bits|) && s[4] == 5 && s[5..] == bits
  {
    hide PutU32, BigEndian;
    NumberAt(Serialize(Bitfield(bits)), [], 1 + |bits|, [5] + bits);
  }

  lemma RequestBytes(r: M.Request)
    requires M.InU32(r.index) && M.InU32(r.begin) && M.InU32(r.length)
    ensures Serialize(Request(r))[..5] == [0, 0, 0, 13, 6] && HoldsTriple(Serialize(Request(r)), r)
    ensures Serialize(Cancel(r))[..5] == [0, 0, 0, 13, 8] && HoldsTriple(Serialize(Cancel(r)), r)
  {
    hide Serialize, HoldsTriple, Triple;
    TripleFrames(r);
    TripleBytes(Serialize(Request(r)), [0, 0, 0, 13, 6], r);
    TripleBytes(Serialize(Cancel(r)), [0, 0, 0, 13, 8], r);
  }

  lemma TripleFrames(r: M.Request)
    ensures Serialize(Request(r)) == [0, 0, 0, 13, 6] + Triple(r)
    ensures Serialize(Cancel(r)) == [0, 0, 0, 13, 8] + Triple(r)
  {
    assert PutU32(13) == [0, 0, 0, 13];
    hide PutU32;
    assert |Triple(r)| == 12;
    hide Triple;
  }

  /** Index, begin and length stand at 5, 9 and 13. */
  predicate HoldsTriple(s: Bytes, r: M.Request) {
    |s| == 17 && BigEndian(s, 5, r.index) && BigEndian(s, 9, r.begin) && BigEndian(s, 13, r.length)
  }

  /** The length prefix, type 7, the index at 5, the begin at 9, and the block behind them. */
  predicate HoldsPiece(s: Bytes, p: M.Piece) {
    && |s| == 13 + |p.block| && BigEndian(s, 0, 9 + |p.block|) && s[4] == 7
    && BigEndian(s, 5, p.index) && BigEndian(s, 9, p.begin) && s[13..] == p.block
  }

  lemma NumberAt(s: Bytes, before: Bytes, n: int, after: Bytes)
    requires M.InU32(n) && s == before + PutU32(n) + after
    ensures BigEndian(s, |before|, n)
  {
    assert s[|before|..|before| + 4] == PutU32(n);
    U32Exact(n, s, |before|);
  }

  lemma TripleBytes(s: Bytes, head: Bytes, r: M.Request)
    requires M.InU32(r.index) && M.InU32(r.begin) && M.InU32(r.length)
    requires |head| == 5 && s == head + Triple(r)
    ensures s[..5] == head && HoldsTriple(s, r)
  {
    hide PutU32, BigEndian;
    var i, b, l := PutU32(r.index), PutU32(r.begin), PutU32(r.length);
    assert s == head + i + (b + l) && s == head + i + b + l && s == head + i + b + l + [];
    NumberAt(s, head, r.index, b + l);
    NumberAt(s, head + i, r.begin, l);
    NumberAt(s, head + i + b, r.length, []);
  }

  lemma PieceBytes(p: M.Piece)
    requires M.InU32(p.index) && M.InU32(p.begin) && 9 + |p.block| < U32
    ensures HoldsPiece(Serialize(Piece(p)), p)
  {
    hide PutU32, BigEndian;
    var s, l, i, b := Serialize(Piece(p)), PutU32(9 + |p.block|), PutU32(p.index), PutU32(p.begin);
    assert s == l + [7] + i + b + p.block;
    assert s == [] + l + ([7] + i + b + p.block) && s == l + [7] + i + (b + p.block);
    NumberAt(s, [], 9 + |p.block|, [7] + i + b + p.block);
    NumberAt(s, l + [7], p.index, b + p.block);
    NumberAt(s, l + [7] + i, p.begin, p.block);
  }

  /** What deserializing makes of a payload, type by type. */
  lemma ParseBytes(raw: Raw)
    ensures var b := raw.payload;
            match Parse(raw)
            case None =>
              || raw.kind < -1 || raw.kind > 9
              || (raw.kind == 4 && |b| != 4) || (raw.kind == 7 && |b| < 9) || (raw.kind == 9 && |b| != 2)
              || ((raw.kind == 6 || raw.kind == 8) && (|b| == 12 ==> exists l :: BigEndian(b, 8, l) && l > 16384))
            case Some(KeepAlive) => raw.kind == -1
            case Some(Choke) => raw.kind == 0
            case Some(Unchoke) => raw.kind == 1
            case Some(Interest) => raw.kind == 2
            case Some(NotInterest) => raw.kind == 3
            case Some(Have(index)) => raw.kind == 4 && |b| == 4 && BigEndian(b, 0, index)
            case Some(Bitfield(bits)) => raw.kind == 5 && bits == b
            case Some(Request(r)) => raw.kind == 6 && |b| == 12 && r.length <= 16384 && IsTriple(b, r)
            case Some(Piece(p)) => raw.kind == 7 && |b| >= 9 && BigEndian(b, 0, p.index) && BigEndian(b, 4, p.begin) && p.block == b[8..]
            case Some(Cancel(r)) => raw.kind == 8 && |b| == 12 && r.length <= 16384 && IsTriple(b, r)
            case Some(Port(port)) => raw.kind == 9 && |b| == 2 && port == b[0] as int * 0x100 + b[1] as int
  {
    if |raw.payload| == 12 {
      assert BigEndian(raw.payload, 8, GetU32(raw.payload, 8));
    }
  }

  predicate IsTriple(b: Bytes, r: M.Request)
    requires |b| == 12
  {
    BigEndian(b, 0, r.index) && BigEndian(b, 4, r.begin) && BigEndian(b, 8, r.length)
  }

  /** A stream is cut by its big-endian length prefix, and the byte behind it is the type. */
  lemma IdentifyBytes(s: Bytes, l: int)
    requires |s| >= 4 && BigEndian(s, 0, l)
    ensures l == 0 ==> Identify(s) == Got(Raw(-1, []), s[4..])
    ensures l > 0 ==>
              Identify(s) == if |s| < 4 + l then Truncated else Expected(s[4], s[5..4 + l], s[4 + l..])
  {
  }

  // ---------- Streams ----------

  /** What a peer may put on the wire: a message of ours, or a frame with an id we do not know. */
  datatype Item = Known(m: Message) | Alien(id: byte, payload: Bytes)

  predicate Sendable(i: Item) {
    match i
    case Known(m) => Typed(m) && 1 + |Payload(m)| < U32
    case Alien(id, payload) => id > 9 && 1 + |payload| < U32
  }

  function Encode(items: seq<Item>): Bytes {
    if |items| == 0 then []
    else
      (match items[0]
       case Known(m) => Serialize(m)
       case Alien(id, payload) => Frame(id, payload)) + Encode(items[1..])
  }

  /** What the listener sees of an item: the frame, or an error that leaves the stream in step. */
  datatype Event = Framed(raw: Raw) | Skipped(id: byte)

  function Seen(items: seq<Item>): seq<Event> {
    if |items| == 0 then []
    else
      [match items[0]
       case Known(m) => Framed(Raw(Id(m), Payload(m)))
       case Alien(id, _) => Skipped(id)] + Seen(items[1..])
  }

  /** Calls `Identify` until the stream ends; an unknown id is an error the listener ignores. */
  function Listen(s: Bytes): seq<Event>
    decreases |s|
  {
    match Identify(s)
    case Truncated => []
    case Unknown(id, rest) => [Skipped(id)] + Listen(rest)
    case Got(raw, rest) => [Framed(raw)] + Listen(rest)
  }

  lemma FrameIsRead(id: byte, payload: Bytes, rest: Bytes)
    requires 1 + |payload| < U32
    ensures Identify(Frame(id, payload) + rest) == Expected(id, payload, rest)
  {
    hide Frame, GetU32;
    FrameShape(id, payload, rest);
  }

  lemma FrameShape(id: byte, payload: Bytes, rest: Bytes)
    requires 1 + |payload| < U32
    ensures var s, n := Frame(id, payload) + rest, 1 + |payload|;
            |s| == 4 + n + |rest| && GetU32(s, 0) == n && s[4] == id && s[5..4 + n] == payload && s[4 + n..] == rest
  {
    hide PutU32, GetU32;
    var s, n := Frame(id, payload) + rest, 1 + |payload|;
    assert s[0..4] == PutU32(n);
    U32RoundTrip(n, s, 0);
  }

  lemma ItemIsRead(i: Item, rest: Bytes)
    requires Sendable(i)
    ensures match i
            case Known(m) => Identify(Serialize(m) + rest) == Got(Raw(Id(m), Payload(m)), rest)
            case Alien(id, payload) => Identify(Frame(id, payload) + rest) == Unknown(id, rest)
  {
    match i
    case Alien(id, payload) => FrameIsRead(id, payload, rest);
    case Known(m) =>
      if m == KeepAlive {
        var s := Serialize(m) + rest;
        assert s[4..] == rest;
        assert GetU32(s, 0) == 0;
      } else {
        hide Identify, Frame;
        FrameIsRead(Id(m), Payload(m), rest);
      }
  }

  /**
    Messages come out of a stream as they went in, in order, with nothing lost or made up; a
    frame with an unknown id is consumed whole, so what follows it is still understood.
   */
  lemma {:induction false} StreamRoundTrip(items: seq<Item>)
    requires forall i <- items :: Sendable(i)
    ensures Listen(Encode(items)) == Seen(items)
  {
    if |items| > 0 {
      assert items[0] in items;
      ItemIsRead(items[0], Encode(items[1..]));
      StreamRoundTrip(items[1..]);
    }
  }

  // ---------- Reading and filling buffers ----------

  /** A connection: the bytes that have not been read yet. */
  class Reader {
    var rest: Bytes

    constructor (s: Bytes)
      ensures rest == s
    {
      rest := s;
    }

    /** `io.ReadFull`: all `n` bytes, or an error after consuming what there was. */
    method ReadFull(n: nat) returns (buffer: Option<Bytes>)
      modifies this
      ensures if n <= |old(rest)| then buffer == Some(old(rest)[..n]) && rest == old(rest)[n..]
              else buffer == None && rest == []
    {
      if n <= |rest| {
        buffer, rest := Some(rest[..n]), rest[n..];
      } else {
        buffer, rest := None, [];
      }
    }

    /** Reads one frame: a length, a type byte, and as much payload as the length says. */
    method Next() returns (event: Option<Event>)
      modifies this
      ensures match Identify(old(rest))
              case Truncated => event == None && rest == []
              case Unknown(id, after) => event == Some(Skipped(id)) && rest == after
              case Got(raw, after) => event == Some(Framed(raw)) && rest == after
    {
      ghost var s := rest;
      var length := ReadFull(4);
      if length == None {
        return None;
      }
      var l := GetU32(length.value, 0);
      if l == 0 {
        return Some(Framed(Raw(-1, [])));
      }
      var messageID := ReadFull(1);
      if messageID == None {
        return None;
      }
      var id := messageID.value[0];
      assert id == s[4] && rest == s[5..];
      var payload := ReadFull(l - 1);
      if payload == None {
        return None;
      }
      assert payload.value == s[5..4 + l] && rest == s[4 + l..];
      var kind := Kind(id);
      if 0 <= kind <= 3 {
        return Some(Framed(Raw(kind, [])));
      } else if 4 <= kind <= 9 {
        return Some(Framed(Raw(kind, payload.value)));
      }
      return Some(Skipped(id));
    }
  }

  method PutUint32(buffer: array<byte>, at: nat, n: int)
    requires at + 4 <= buffer.Length
    modifies buffer
    ensures buffer[..] == old(buffer[..at]) + PutU32(n) + old(buffer[at + 4..])
    ensures buffer[..at + 4] == old(buffer[..at]) + PutU32(n)
  {
    buffer[at], buffer[at + 1] := Low(n / 0x100_0000), Low(n / 0x1_0000);
    buffer[at + 2], buffer[at + 3] := Low(n / 0x100), Low(n);
  }

  lemma FrameBytes(r: M.Request, p: M.Piece)
    ensures Serialize(Request(r)) == PutU32(13) + [6] + PutU32(r.index) + PutU32(r.begin) + PutU32(r.length)
    ensures Serialize(Piece(p)) == PutU32(ToU32(9 + |p.block|)) + [7] + PutU32(p.index) + PutU32(p.begin) + p.block
  {
    hide PutU32;
  }

  /** Fills the 17 bytes of a request frame, its numbers big-endian at 5, 9 and 13. */
  method SerializeRequest(r: M.Request) returns (msg: array<byte>)
    ensures fresh(msg) && msg[..] == Serialize(Request(r))
    ensures Typed(Request(r)) ==> msg[..5] == [0, 0, 0, 13, 6] && HoldsTriple(msg[..], r)
  {
    msg := FillRequest(r);
    hide HoldsTriple, BigEndian, Serialize, Typed;
    RequestHolds(r);
  }

  lemma RequestHolds(r: M.Request)
    ensures Typed(Request(r)) ==>
              Serialize(Request(r))[..5] == [0, 0, 0, 13, 6] && HoldsTriple(Serialize(Request(r)), r)
  {
    if Typed(Request(r)) {
      RequestBytes(r);
    }
  }

  method FillRequest(r: M.Request) returns (msg: array<byte>)
    ensures fresh(msg) && msg[..] == Serialize(Request(r))
  {
    FrameBytes(r, M.Piece(0, 0, []));
    hide PutU32, Serialize;
    msg := new byte[17](i => 0);
    PutUint32(msg, 0, 13);
    msg[4] := 6;
    assert msg[..5] == msg[..4] + [6];
    PutUint32(msg, 5, r.index);
    PutUint32(msg, 9, r.begin);
    PutUint32(msg, 13, r.length);
    assert msg[..17] == msg[..];
  }

  /** Fills the buffer of a piece frame, its numbers big-endian, and copies the block behind its header. */
  method SerializePiece(p: M.Piece) returns (msg: array<byte>)
    ensures fresh(msg) && msg[..] == Serialize(Piece(p))
    ensures Typed(Piece(p)) && 9 + |p.block| < U32 ==> HoldsPiece(msg[..], p)
  {
    msg := FillPiece(p);
    hide HoldsPiece, BigEndian, Serialize, Typed;
    PieceHolds(p);
  }

  lemma PieceHolds(p: M.Piece)
    ensures Typed(Piece(p)) && 9 + |p.block| < U32 ==> HoldsPiece(Serialize(Piece(p)), p)
  {
    if Typed(Piece(p)) && 9 + |p.block| < U32 {
      PieceBytes(p);
    }
  }

  method FillPiece(p: M.Piece) returns (msg: array<byte>)
    ensures fresh(msg) && msg[..] == Serialize(Piece(p))
  {
    FrameBytes(M.Request(0, 0, 0), p);
    hide PutU32, Serialize;
    msg := new byte[13 + |p.block|](i => 0);
    PutUint32(msg, 0, ToU32(9 + |p.block|));
    msg[4] := 7;
    assert msg[..5] == msg[..4] + [7];
    PutUint32(msg, 5, p.index);
    PutUint32(msg, 9, p.begin);
    ghost var header := msg[..13];
    for k := 0 to |p.block|
      invariant msg[..13] == header && msg[13..13 + k] == p.block[..k]
    {
      msg[13 + k] := p.block[k];
    }
    assert msg[..] == header + msg[13..13 + |p.block|];
  }
}
