/** Message framing of ethwire/messaging.go. */
module Wire {
  import opened Bytes
  import opened Rlp

  const MAGIC_TOKEN: Bytes := [34, 64, 8, 145]

  /** A message type and its data, a list of values. */
  datatype Msg = Msg(typ: byte, data: seq<Item>)

  // ---------------------------------------------------------------- writing

  /** NumberToBytes(uint32(n), 32): the conversion keeps the low 32 bits. */
  function U32(n: nat): (b: Bytes)
    ensures |b| == 4
  {
    [n / 0x100_0000 % 256, n / 0x1_0000 % 256, n / 0x100 % 256, n % 256]
  }

  function Payload(m: Msg): Bytes {
    Encode(List([U8(m.typ)] + m.data))
  }

  function Frame(m: Msg): Bytes {
    MAGIC_TOKEN + U32(|Payload(m)|) + Payload(m)
  }

  /** WriteMessage, up to the connection it writes to. */
  method WriteMessage(m: Msg) returns (pack: Bytes)
    ensures pack == Frame(m)
  {
    var encoded := EncodeBuffer(List([U8(m.typ)] + m.data));
    pack := MAGIC_TOKEN + U32(|encoded|);
    pack := pack + encoded;
  }

  // ---------------------------------------------------------------- reading

  /** What one ReadMessage returns: no data left, an error that drops what is left, a message, or a panic. */
  datatype Read = Done | Dropped | Got(msg: Msg, remaining: Bytes) | Crash

  /** BytesToNumber on the four length bytes. */
  function BytesToNumber(b: Bytes): nat
    requires |b| <= 8
  {
    ReadUint(Zeros(|b|) + b, 8)
  }

  /** The message in a payload; SliceFrom(1) panics unless the payload is a list with an element. */
  function ParsePayload(message: Bytes): Read {
    match Decode(message, 0)
    case Panic => Crash
    case Ok(x, _) =>
      if x.List? && |x.items| > 0 then Got(Msg(UintOf(x.items[0]) % 256, x.items[1..]), []) else Crash
  }

  function ReadMessage(data: Bytes): (r: Read)
    ensures r.Got? ==> |r.remaining| < |data|
  {
    if |data| == 0 then Done
    else if |data| <= 8 then Dropped
    else if data[..4] != MAGIC_TOKEN then Dropped
    else
      var len := BytesToNumber(data[4..8]);
      if 8 + len > |data| then Crash
      else
        match ParsePayload(data[8..8 + len])
        case Got(msg, _) => Got(msg, data[8 + len..])
        case _ => Crash
  }

  /** What ReadMessages returns for a buffer: the messages, and whether it recovered from a panic. */
  function ReadAll(data: Bytes): (seq<Msg>, bool) {
    match ReadMessage(data)
    case Done => ([], false)
    case Dropped => ([], false)
    case Crash => ([], true)
    case Got(msg, remaining) => var rest := ReadAll(remaining); ([msg] + rest.0, rest.1)
  }

  /** The loop of ReadMessages over a received buffer. */
  method ReadMessages(buff: Bytes) returns (msgs: seq<Msg>, crashed: bool)
    ensures msgs == ReadAll(buff).0 && crashed == ReadAll(buff).1
  {
    msgs, crashed := [], false;
    var remaining := buff;
    while true
      invariant msgs + ReadAll(remaining).0 == ReadAll(buff).0 && ReadAll(remaining).1 == ReadAll(buff).1
      decreases |remaining|
    {
      var r := ReadMessage(remaining);
      match r {
        case Done => return;
        case Dropped => return;
        case Crash => crashed := true; return;
        case Got(msg, rest) =>
          msgs := msgs + [msg];
          remaining := rest;
      }
    }
  }

  // -------------------------------------------------------------- round trip

  function Frames(ms: seq<Msg>): Bytes {
    if ms == [] then [] else Frame(ms[0]) + Frames(ms[1..])
  }

  /** A message as it arrives: its data in decoded form. */
  function Arrived(m: Msg): Msg {
    Msg(m.typ, CanonAll(m.data))
  }

  function ArrivedAll(ms: seq<Msg>): seq<Msg> {
    if ms == [] then [] else [Arrived(ms[0])] + ArrivedAll(ms[1..])
  }

  ghost predicate Sendable(m: Msg) {
    |Payload(m)| < 0x1_0000_0000
  }

  lemma U32RoundTrip(n: nat)
    requires n < 0x1_0000_0000
    ensures BytesToNumber(U32(n)) == n
  {
    hide Num;
    var b := U32(n);
    var d := Zeros(4) + b;
    assert d[..8] == d;
    NumZeros(4, b);
    Num4(b);
    FourDigits(n);
  }

  lemma FourDigits(n: nat)
    requires n < 0x1_0000_0000
    ensures ((n / 0x100_0000 % 256 * 256 + n / 0x1_0000 % 256) * 256 + n / 0x100 % 256) * 256 + n % 256 == n
  {
    var p, q := n / 0x100, n / 0x1_0000;
    assert n == p * 256 + n % 256 && p == q * 256 + p % 256 && q == n / 0x100_0000 * 256 + q % 256;
  }

  lemma Num4(b: Bytes)
    requires |b| == 4
    ensures Num(b) == ((b[0] as int * 256 + b[1]) * 256 + b[2]) * 256 + b[3]
  {
    assert b[..3][..2] == b[..2] && b[..2][..1] == b[..1] && b[..1][..0] == [];
    assert Num(b[..1]) == b[0];
    assert Num(b[..2]) == 256 * Num(b[..1]) + b[1];
    assert Num(b[..3]) == 256 * Num(b[..2]) + b[2];
  }

  /** Every message type survives: 0 comes back as an empty string, and 0x80 to 0xff as strings of one byte. */
  lemma TypeSurvives(t: byte)
    ensures UintOf(Canon(U8(t))) % 256 == t
  {
    if t > 0 {
      assert BigBytes(t) == BigBytes(0) + [t] == [t];
      assert Num([t]) == 256 * Num([t][..0]) + t;
    }
  }

  lemma ParseSent(m: Msg)
    requires Sendable(m)
    ensures ParsePayload(Payload(m)) == Got(Arrived(m), [])
  {
    var items := [U8(m.typ)] + m.data;
    var p := Payload(m);
    assert p[0..|p|] == p;
    RoundTripAt(p, 0, List(items));
    TypeSurvives(m.typ);
    assert CanonAll(items)[1..] == CanonAll(m.data);
  }

  lemma ReadSent(m: Msg, rest: Bytes)
    requires Sendable(m)
    ensures ReadMessage(Frame(m) + rest) == Got(Arrived(m), rest)
  {
    hide Payload, ParsePayload, BytesToNumber, U32;
    var p := Payload(m);
    var data := Frame(m) + rest;
    PayloadNonEmpty(m);
    assert data[..4] == MAGIC_TOKEN && data[4..8] == U32(|p|);
    U32RoundTrip(|p|);
    assert data[8..8 + |p|] == p && data[8 + |p|..] == rest;
    ParseSent(m);
  }

  lemma PayloadNonEmpty(m: Msg)
    ensures |Payload(m)| > 0
  {
  }

  /** A frame cut short anywhere yields no message and no valid continuation. */
  lemma CutShort(m: Msg, tail: Bytes)
    requires Sendable(m) && tail < Frame(m)
    ensures ReadAll(tail).0 == [] && (ReadAll(tail).1 <==> |tail| > 8)
  {
    hide Payload, ParsePayload, BytesToNumber, U32;
    var f, p := Frame(m), Payload(m);
    assert tail == f[..|tail|];
    if |tail| > 8 {
      assert tail[..4] == f[..4] == MAGIC_TOKEN;
      assert tail[4..8] == f[4..8] == U32(|p|);
      U32RoundTrip(|p|);
    }
  }

  /**
   * Parsing the concatenation of written frames gives back their messages in order, and a
   * last frame cut short takes nothing away from the frames before it.
   */
  lemma {:induction false} StreamRoundTrip(ms: seq<Msg>, last: Msg, tail: Bytes)
    requires forall m :: m in ms ==> Sendable(m)
    requires Sendable(last) && tail < Frame(last)
    ensures ReadAll(Frames(ms) + tail) == (ArrivedAll(ms), |tail| > 8)
  {
    if ms == [] {
      assert Frames(ms) + tail == tail;
      CutShort(last, tail);
    } else {
      var rest := Frames(ms[1..]) + tail;
      assert Frames(ms) + tail == Frame(ms[0]) + rest;
      ReadSent(ms[0], rest);
      StreamRoundTrip(ms[1..], last, tail);
    }
  }

  // -------------------------------------------------------- frames byte by byte

  /** A frame: the token 0x22400891, the length of the payload as four bytes, most significant first, and the payload. */
  lemma FrameLayout(m: Msg)
    requires Sendable(m)
    ensures var f, p := Frame(m), Encode(List([U8(m.typ)] + m.data));
      |f| == 8 + |p| && f[..4] == [0x22, 0x40, 0x08, 0x91] && Num(f[4..8]) == |p| && f[8..] == p
  {
    var f, p := Frame(m), Payload(m);
    assert f[..4] == MAGIC_TOKEN && f[4..8] == U32(|p|) && f[8..] == p;
    U32RoundTrip(|p|);
    FourBytes(U32(|p|));
  }

  lemma FourBytes(b: Bytes)
    requires |b| == 4
    ensures BytesToNumber(b) == Num(b)
  {
    assert (Zeros(4) + b)[..8] == Zeros(4) + b;
    NumZeros(4, b);
  }

  /** What any received bytes give: nothing without the token, a panic without the whole payload. */
  lemma ReadAny(data: Bytes)
    ensures data == [] ==> ReadMessage(data) == Done
    ensures 0 < |data| <= 8 ==> ReadMessage(data) == Dropped
    ensures |data| > 8 && data[..4] != [0x22, 0x40, 0x08, 0x91] ==> ReadMessage(data) == Dropped
    ensures |data| > 8 && data[..4] == [0x22, 0x40, 0x08, 0x91] ==>
      var n := Num(data[4..8]);
      if 8 + n > |data| then ReadMessage(data) == Crash
      else
        match Decode(data[8..8 + n], 0)
        case Ok(List(items), _) =>
          if items == [] then ReadMessage(data) == Crash
          else ReadMessage(data) == Got(Msg(UintOf(items[0]) % 256, items[1..]), data[8 + n..])
        case _ => ReadMessage(data) == Crash
  {
    hide Decode, Num;
    if |data| > 8 { FourBytes(data[4..8]); }
  }

  /** So a buffer whose first frame has another token yields no message at all. */
  lemma WrongToken(data: Bytes)
    requires |data| > 8 && data[..4] != [0x22, 0x40, 0x08, 0x91]
    ensures ReadAll(data) == ([], false)
  {
    ReadAny(data);
  }
}
