/**
 * The RLP codec of ethutil/rlp.go (Appendix B of the Ethereum Yellow Paper) and the
 * dynamic values of ethutil/value.go that it prints and parses.
 */
module Rlp {
  import opened Bytes

  /** What an `interface{}` holds when it reaches the codec. */
  datatype Item =
    | Nil                       // nil
    | Big(n: int)               // *big.Int
    | U8(b: byte)               // byte, as decoded from a single byte up to 0x7f
    | Raw(bs: Bytes)            // []byte
    | Text(s: Bytes)            // string
    | List(items: seq<Item>)    // []interface{}

  /** Value.Uint: 64 bits of what the item holds as a number. */
  function UintOf(x: Item): nat {
    match x
    case U8(b) => b
    case Raw(bs) => Num(bs) % TWO64
    case Big(n) => Abs(n) % TWO64
    case _ => 0
  }

  /** Value.BigInt. */
  function BigOf(x: Item): int {
    match x
    case Raw(bs) => Num(bs)
    case Big(n) => n
    case _ => UintOf(x)
  }

  // ---------------------------------------------------------------- printing

  function Header(len: nat, base: byte): Bytes
    requires base == 0x80 || base == 0xc0
  {
    if len < 56 then [len + base]
    else
      var b := BigBytes(len);
      [(|b| + base + 0x37) % 256] + b
  }

  function EncodeString(t: Bytes): Bytes {
    if |t| == 1 && t[0] <= 0x7f then t else Header(|t|, 0x80) + t
  }

  function Encode(x: Item): Bytes
    decreases x, 1
  {
    match x
    case Nil => [0xc0]
    case Big(n) => EncodeString(BigBytes(Abs(n)))
    case U8(b) => EncodeString(BigBytes(b))
    case Raw(bs) => EncodeString(bs)
    case Text(s) => EncodeString(s)
    case List(items) => var body := EncodeAll(items); Header(|body|, 0xc0) + body
  }

  function EncodeAll(items: seq<Item>): Bytes
    decreases items, 0
  {
    if items == [] then [] else Encode(items[0]) + EncodeAll(items[1..])
  }

  // ----------------------------------------------------------------- parsing

  /** Decode indexes and slices without checks: out of range is a Go panic. */
  datatype Decoded<T> = Ok(value: T, next: nat) | Panic

  function Slice(data: Bytes, lo: nat, len: nat): Decoded<Bytes> {
    if lo + len <= |data| then Ok(data[lo..lo + len], lo + len) else Panic
  }

  /** What the first byte announces: a byte standing for itself, or a payload at `at`. */
  datatype Prefix = Single(b: byte) | Str(at: nat, len: nat) | Lst(at: nat, len: nat) | Bad

  /** The length of a long payload is itself read from the `l` bytes after the first. */
  function ReadLength(data: Bytes, pos: nat, l: nat): Decoded<nat> {
    match Slice(data, pos + 1, l)
    case Panic => Panic
    case Ok(b, at) => Ok(ReadVarInt(b), at)
  }

  function ReadPrefix(data: Bytes, pos: nat): (p: Prefix)
    ensures p.Str? || p.Lst? ==> pos < p.at <= |data|
    ensures p.Single? ==> pos < |data|
  {
    if pos >= |data| then Bad
    else
      var c := data[pos];
      if c <= 0x7f then Single(c)
      else if c <= 0xb7 then Str(pos + 1, c - 0x80)
      else if c <= 0xbf then
        var n := ReadLength(data, pos, c - 0xb7);
        if n.Panic? then Bad else Str(n.next, n.value)
      else if c <= 0xf7 then Lst(pos + 1, c - 0xc0)
      else
        var n := ReadLength(data, pos, c - 0xf7);
        if n.Panic? then Bad else Lst(n.next, n.value)
  }

  function Decode(data: Bytes, pos: nat): (r: Decoded<Item>)
    ensures r.Ok? ==> pos < r.next <= |data|
    decreases |data| - pos, 0
  {
    match ReadPrefix(data, pos)
    case Bad => Panic
    case Single(b) => Ok(U8(b), pos + 1)
    case Str(at, len) => (
      match Slice(data, at, len)
      case Panic => Panic
      case Ok(b, next) => Ok(Raw(b), next)
    )
    case Lst(at, len) =>
      match DecodeItems(data, at, len)
      case Panic => Panic
      case Ok(xs, next) => Ok(List(xs), next)
  }

  /** The list loops: decode items until `left` bytes have been consumed, or more. */
  function DecodeItems(data: Bytes, pos: nat, left: int): (r: Decoded<seq<Item>>)
    requires pos <= |data|
    ensures r.Ok? ==> pos <= r.next <= |data|
    decreases |data| - pos, 1
  {
    if left <= 0 then Ok([], pos)
    else
      match Decode(data, pos)
      case Panic => Panic
      case Ok(x, next) =>
        match DecodeItems(data, next, left - (next - pos))
        case Panic => Panic
        case Ok(xs, end) => Ok([x] + xs, end)
  }

  // ------------------------------------------------- the imperative originals

  /** Encode as written: the items of a list go to a buffer of their own, whose length heads the result. */
  method EncodeBuffer(x: Item) returns (buff: Bytes)
    ensures buff == Encode(x)
    decreases x
  {
    match x {
      case Nil => buff := [0xc0];
      case Big(n) => buff := EncodeString(BigBytes(Abs(n)));
      case U8(b) => buff := EncodeString(BigBytes(b));
      case Raw(bs) => buff := EncodeString(bs);
      case Text(s) => buff := EncodeString(s);
      case List(items) =>
        var b: Bytes := [];
        for i := 0 to |items|
          invariant b + EncodeAll(items[i..]) == EncodeAll(items)
        {
          var e := EncodeBuffer(items[i]);
          assert items[i..][1..] == items[i + 1..];
          b := b + e;
        }
        buff := Header(|b|, 0xc0) + b;
    }
  }

  /** Decode as written; both list cases run the same loop over the items. */
  method DecodeAt(data: Bytes, pos: nat) returns (r: Decoded<Item>)
    ensures r == Decode(data, pos)
    decreases |data| - pos, 0
  {
    hide DecodeItems, ReadPrefix;
    var p := ReadPrefix(data, pos);
    match p {
      case Bad => r := Panic;
      case Single(b) => r := Ok(U8(b), pos + 1);
      case Str(at, len) =>
        var b := Slice(data, at, len);
        r := if b.Panic? then Panic else Ok(Raw(b.value), b.next);
      case Lst(at, len) =>
        var xs := DecodeLoop(data, at, len);
        r := if xs.Panic? then Panic else Ok(List(xs.value), xs.next);
    }
  }

  /** The loop moves `at` past each item it reads until `total` bytes are consumed. */
  method DecodeLoop(data: Bytes, start: nat, total: nat) returns (r: Decoded<seq<Item>>)
    requires start <= |data|
    ensures r == DecodeItems(data, start, total)
    decreases |data| - start, 1
  {
    hide Decode;
    var slice: seq<Item> := [];
    var i, at := 0, start;
    PrependNothing(DecodeItems(data, start, total));
    while i < total
      invariant start <= at <= |data| && i == at - start
      invariant Prepend(slice, DecodeItems(data, at, total - i)) == DecodeItems(data, start, total)
      decreases |data| - at
    {
      var obj := DecodeAt(data, at);
      if obj.Panic? { return Panic; }
      PrependStep(slice, obj.value, DecodeItems(data, obj.next, total - i - (obj.next - at)));
      slice := slice + [obj.value];
      i := i + (obj.next - at);
      at := obj.next;
    }
    assert slice + [] == slice;
    r := Ok(slice, at);
  }

  ghost function Prepend(xs: seq<Item>, r: Decoded<seq<Item>>): Decoded<seq<Item>> {
    match r
    case Panic => Panic
    case Ok(ys, next) => Ok(xs + ys, next)
  }

  lemma PrependNothing(r: Decoded<seq<Item>>)
    ensures Prepend([], r) == r
  {
    if r.Ok? {
      assert [] + r.value == r.value;
    }
  }

  lemma PrependStep(xs: seq<Item>, y: Item, r: Decoded<seq<Item>>)
    ensures Prepend(xs, Prepend([y], r)) == Prepend(xs + [y], r)
  {
    if r.Ok? {
      assert xs + ([y] + r.value) == xs + [y] + r.value;
    }
  }

  // -------------------------------------------------------------- round trip

  /** The form in which Decode returns a byte string. */
  function Parsed(s: Bytes): Item {
    if |s| == 1 && s[0] <= 0x7f then U8(s[0]) else Raw(s)
  }

  /** The form in which Decode returns what Encode printed for x. */
  function Canon(x: Item): Item {
    match x
    case Nil => List([])
    case Big(n) => Parsed(BigBytes(Abs(n)))
    case U8(b) => Parsed(BigBytes(b))
    case Raw(bs) => Parsed(bs)
    case Text(s) => Parsed(s)
    case List(items) => List(CanonAll(items))
  }

  function CanonAll(items: seq<Item>): (r: seq<Item>)
    ensures |r| == |items|
    ensures forall i :: 0 <= i < |items| ==> r[i] == Canon(items[i])
  {
    if items == [] then [] else [Canon(items[0])] + CanonAll(items[1..])
  }

  ghost predicate At(data: Bytes, pos: nat, piece: Bytes) {
    pos + |piece| <= |data| && data[pos..pos + |piece|] == piece
  }

  lemma AtSplit(data: Bytes, pos: nat, a: Bytes, b: Bytes)
    requires At(data, pos, a + b)
    ensures At(data, pos, a) && At(data, pos + |a|, b)
  {
    assert a == (a + b)[..|a|] && b == (a + b)[|a|..];
  }

  lemma FirstByte(data: Bytes, pos: nat, piece: Bytes)
    requires At(data, pos, piece) && piece != []
    ensures data[pos] == piece[0]
  {
    assert data[pos] == data[pos..pos + |piece|][0];
  }

  lemma ReadLongHeader(data: Bytes, pos: nat, b: Bytes, base: byte)
    requires base == 0x80 || base == 0xc0
    requires 1 <= |b| <= 8 && At(data, pos, [|b| + base + 0x37] + b)
    ensures var at := pos + 1 + |b|;
            ReadPrefix(data, pos) == if base == 0x80 then Str(at, ReadVarInt(b)) else Lst(at, ReadVarInt(b))
  {
    FirstByte(data, pos, [|b| + base + 0x37] + b);
    AtSplit(data, pos, [|b| + base + 0x37], b);
    assert Slice(data, pos + 1, |b|) == Ok(b, pos + 1 + |b|);
  }

  lemma LengthBytes(len: nat)
    requires 0 < len < GO_MAX_LEN
    ensures 1 <= |BigBytes(len)| <= 8 && ReadVarInt(BigBytes(len)) == len
  {
    GoLengthFits(len);
    ReadVarIntIsNum(BigBytes(len));
    NumBigBytes(len);
  }

  lemma ReadHeader(data: Bytes, pos: nat, len: nat, base: byte)
    requires base == 0x80 || base == 0xc0
    requires len < GO_MAX_LEN && At(data, pos, Header(len, base))
    ensures var at := pos + |Header(len, base)|;
            ReadPrefix(data, pos) == if base == 0x80 then Str(at, len) else Lst(at, len)
  {
    if len < 56 {
      FirstByte(data, pos, Header(len, base));
    } else {
      LengthBytes(len);
      ReadLongHeader(data, pos, BigBytes(len), base);
    }
  }

  lemma DecodeByte(data: Bytes, pos: nat, b: byte)
    requires b <= 0x7f && At(data, pos, [b])
    ensures Decode(data, pos) == Ok(U8(b), pos + 1)
  {
    FirstByte(data, pos, [b]);
  }

  lemma DecodePayload(data: Bytes, pos: nat, at: nat, t: Bytes)
    requires At(data, at, t) && ReadPrefix(data, pos) == Str(at, |t|)
    ensures Decode(data, pos) == Ok(Raw(t), at + |t|)
  {
  }

  lemma DecodeString(data: Bytes, pos: nat, t: Bytes)
    requires |EncodeString(t)| < GO_MAX_LEN && At(data, pos, EncodeString(t))
    ensures Decode(data, pos) == Ok(Parsed(t), pos + |EncodeString(t)|)
  {
    hide Header, ReadPrefix, Decode, At;
    if |t| == 1 && t[0] <= 0x7f {
      assert t == [t[0]];
      DecodeByte(data, pos, t[0]);
    } else {
      var h := Header(|t|, 0x80);
      AtSplit(data, pos, h, t);
      ReadHeader(data, pos, |t|, 0x80);
      DecodePayload(data, pos, pos + |h|, t);
    }
  }

  lemma DecodeList(data: Bytes, pos: nat, len: nat, xs: seq<Item>)
    requires len < GO_MAX_LEN && At(data, pos, Header(len, 0xc0))
    requires var at := pos + |Header(len, 0xc0)|; DecodeItems(data, at, len) == Ok(xs, at + len)
    ensures Decode(data, pos) == Ok(List(xs), pos + |Header(len, 0xc0)| + len)
  {
    ReadHeader(data, pos, len, 0xc0);
  }

  lemma DecodeNil(data: Bytes, pos: nat)
    requires At(data, pos, [0xc0])
    ensures Decode(data, pos) == Ok(List([]), pos + 1)
  {
    FirstByte(data, pos, [0xc0]);
    assert ReadPrefix(data, pos) == Lst(pos + 1, 0);
  }

  lemma DecodeMore(data: Bytes, pos: nat, left: int, x: Item, next: nat, xs: seq<Item>, end: nat)
    requires pos < next <= |data| && left > 0
    requires Decode(data, pos) == Ok(x, next) && DecodeItems(data, next, left - (next - pos)) == Ok(xs, end)
    ensures DecodeItems(data, pos, left) == Ok([x] + xs, end)
  {
  }

  /** Parsing at any position of any buffer undoes printing there. */
  lemma {:induction false} RoundTripAt(data: Bytes, pos: nat, x: Item)
    requires |Encode(x)| < GO_MAX_LEN && At(data, pos, Encode(x))
    ensures Decode(data, pos) == Ok(Canon(x), pos + |Encode(x)|)
    decreases x, 1
  {
    hide Decode, DecodeItems, Header, EncodeString, At;
    match x {
      case Nil => DecodeNil(data, pos);
      case Big(n) => DecodeString(data, pos, BigBytes(Abs(n)));
      case U8(b) => DecodeString(data, pos, BigBytes(b));
      case Raw(bs) => DecodeString(data, pos, bs);
      case Text(s) => DecodeString(data, pos, s);
      case List(items) =>
        var body := EncodeAll(items);
        var h := Header(|body|, 0xc0);
        assert Encode(x) == h + body;
        AtSplit(data, pos, h, body);
        RoundTripAll(data, pos + |h|, items);
        DecodeList(data, pos, |body|, CanonAll(items));
    }
  }

  lemma {:induction false} RoundTripAll(data: Bytes, pos: nat, items: seq<Item>)
    requires |EncodeAll(items)| < GO_MAX_LEN && At(data, pos, EncodeAll(items))
    ensures DecodeItems(data, pos, |EncodeAll(items)|) == Ok(CanonAll(items), pos + |EncodeAll(items)|)
    decreases items, 0
  {
    hide Decode, DecodeItems, At, Encode, Canon;
    if items == [] {
      AtBounds(data, pos, []);
      DecodeNone(data, pos);
    } else {
      var e, rest := Encode(items[0]), EncodeAll(items[1..]);
      EncodeNonEmpty(items[0]);
      AtSplit(data, pos, e, rest);
      AtBounds(data, pos, e);
      RoundTripAt(data, pos, items[0]);
      RoundTripAll(data, pos + |e|, items[1..]);
      DecodeMore(data, pos, |e + rest|, Canon(items[0]), pos + |e|, CanonAll(items[1..]), pos + |e| + |rest|);
    }
  }

  lemma DecodeNone(data: Bytes, pos: nat)
    requires pos <= |data|
    ensures DecodeItems(data, pos, 0) == Ok([], pos)
  {
  }

  lemma AtBounds(data: Bytes, pos: nat, piece: Bytes)
    requires At(data, pos, piece)
    ensures pos + |piece| <= |data|
  {
  }

  lemma EncodeNonEmpty(x: Item)
    ensures |Encode(x)| > 0
  {
  }

  /** The round trip with an explicit prefix and suffix around the encoding. */
  lemma RoundTrip(prefix: Bytes, x: Item, suffix: Bytes)
    requires |Encode(x)| < GO_MAX_LEN
    ensures Decode(prefix + Encode(x) + suffix, |prefix|) == Ok(Canon(x), |prefix| + |Encode(x)|)
  {
    var data := prefix + Encode(x) + suffix;
    assert data[|prefix|..|prefix| + |Encode(x)|] == Encode(x);
    RoundTripAt(data, |prefix|, x);
  }

  lemma DecodeWhole(x: Item)
    requires |Encode(x)| < GO_MAX_LEN
    ensures Decode(Encode(x), 0) == Ok(Canon(x), |Encode(x)|)
  {
    RoundTrip([], x, []);
    assert [] + Encode(x) + [] == Encode(x);
  }

  /** A number printed and parsed reads as its magnitude. */
  lemma NumberBack(n: int)
    ensures BigOf(Canon(Big(n))) == Abs(n) && UintOf(Canon(Big(n))) == Abs(n) % TWO64
  {
    var b := BigBytes(Abs(n));
    NumBigBytes(Abs(n));
    if |b| == 1 { assert b[..0] == [] && Num(b) == 256 * Num(b[..0]) + b[0]; }
  }

  /** No encoding is a proper prefix of another, and equal encodings come from equal values. */
  lemma PrefixFree(x: Item, y: Item, s: Bytes, t: Bytes)
    requires |Encode(x)| < GO_MAX_LEN && |Encode(y)| < GO_MAX_LEN
    requires Encode(x) + s == Encode(y) + t
    ensures Encode(x) == Encode(y) && Canon(x) == Canon(y) && s == t
  {
    var a, b := Encode(x), Encode(y);
    RoundTripAt(a + s, 0, x);
    RoundTripAt(b + t, 0, y);
    assert |a| == |b|;
    assert a == (a + s)[..|a|] && b == (b + t)[..|b|];
    assert s == (a + s)[|a|..] && t == (b + t)[|b|..];
  }

  lemma EncodeInjective(x: Item, y: Item)
    requires |Encode(x)| < GO_MAX_LEN && |Encode(y)| < GO_MAX_LEN && Encode(x) == Encode(y)
    ensures Canon(x) == Canon(y)
  {
    PrefixFree(x, y, [], []);
  }

  // ------------------------------------------- re-encoding what was decoded

  /** No byte string anywhere in x is the single byte 0. */
  predicate ZeroFree(x: Item) {
    match x
    case Raw(bs) => bs != [0]
    case Text(s) => s != [0]
    case List(items) => forall i :: 0 <= i < |items| ==> ZeroFree(items[i])
    case _ => true
  }

  lemma ParsedReencodes(s: Bytes)
    ensures s != [0] ==> Encode(Parsed(s)) == EncodeString(s) && Canon(Parsed(s)) == Parsed(s)
    ensures s == [0] ==> Canon(Parsed(s)) != Parsed(s)
  {
    if |s| == 1 && s[0] <= 0x7f && s[0] != 0 {
      assert BigBytes(s[0]) == BigBytes(0) + [s[0]] == s;
    }
  }

  lemma BigBytesNotZero(n: nat)
    ensures BigBytes(n) != [0]
  {
    if n > 0 && |BigBytes(n)| == 1 {
      assert |BigBytes(n / 256)| == 0 && n / 256 == 0;
      assert BigBytes(n)[0] == n;
    }
  }

  lemma {:induction false} CanonStable(x: Item)
    ensures ZeroFree(x) ==> Encode(Canon(x)) == Encode(x)
    ensures ZeroFree(x) <==> Canon(Canon(x)) == Canon(x)
    decreases x, 1
  {
    match x {
      case Nil =>
      case Big(n) => BigBytesNotZero(Abs(n)); ParsedReencodes(BigBytes(Abs(n)));
      case U8(b) => BigBytesNotZero(b); ParsedReencodes(BigBytes(b));
      case Raw(bs) => ParsedReencodes(bs);
      case Text(s) => ParsedReencodes(s);
      case List(items) => CanonStableAll(items);
    }
  }

  lemma {:induction false} CanonStableAll(items: seq<Item>)
    ensures (forall i :: 0 <= i < |items| ==> ZeroFree(items[i])) ==> EncodeAll(CanonAll(items)) == EncodeAll(items)
    ensures (forall i :: 0 <= i < |items| ==> ZeroFree(items[i])) <==> CanonAll(CanonAll(items)) == CanonAll(items)
    decreases items, 0
  {
    if items != [] {
      var rest := items[1..];
      CanonStable(items[0]);
      CanonStableAll(rest);
      assert CanonAll(items)[1..] == CanonAll(rest);
      assert (forall i :: 0 <= i < |items| ==> ZeroFree(items[i]))
        <==> ZeroFree(items[0]) && (forall i :: 0 <= i < |rest| ==> ZeroFree(rest[i]));
      assert CanonAll(CanonAll(items)) == [Canon(Canon(items[0]))] + CanonAll(CanonAll(rest));
    }
  }

  /**
   * Writing a value to the database, reading it back and writing it again stores the same
   * bytes exactly when no string in it is the single byte 0: that one comes back as the
   * number 0, which prints as the empty string.
   */
  lemma ReencodeExact(x: Item)
    requires |Encode(x)| < GO_MAX_LEN && |Encode(Canon(x))| < GO_MAX_LEN
    ensures Encode(Canon(x)) == Encode(x) <==> ZeroFree(x)
  {
    CanonStable(x);
    if Encode(Canon(x)) == Encode(x) {
      EncodeInjective(Canon(x), x);
    }
  }

  /** The failing input: two reloads turn "\x00" into "". */
  lemma ZeroByteIsLost()
    ensures Canon(Text([0])) == U8(0)
    ensures Encode(U8(0)) == [0x80] != Encode(Text([0]))
    ensures Canon(Canon(Text([0]))) == Raw([])
  {
  }
}
