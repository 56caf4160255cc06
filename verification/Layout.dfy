/** The bytes of RLP, written out: what the printer writes and what the parser takes, by position (Appendix B of the
 * Ethereum Yellow Paper). */
module Layout {
  import opened Bytes
  import opened Rlp

  // ---------------------------------------------------------------- printing

  /** The shortest big-endian form of a length that is not 0. */
  predicate Length(b: Bytes, n: nat) {
    1 <= |b| <= 8 && b[0] != 0 && Num(b) == n
  }

  /** How a byte string is written. */
  ghost predicate StringForm(e: Bytes, s: Bytes) {
    if |s| == 1 && s[0] <= 0x7f then e == s
    else if |s| < 56 then e == [0x80 + |s|] + s
    else exists b :: Length(b, |s|) && e == [0xb7 + |b|] + b + s
  }

  /** The encodings of the items one after another. */
  ghost predicate Joined(body: Bytes, items: seq<Item>) {
    exists cuts: seq<nat> :: Cuts(body, items, cuts)
  }

  ghost predicate Cuts(body: Bytes, items: seq<Item>, cuts: seq<nat>) {
    && |cuts| == |items| + 1 && cuts[0] == 0 && cuts[|items|] == |body|
    && forall i :: 0 <= i < |items| ==> Between(body, cuts[i], cuts[i + 1], Encode(items[i]))
  }

  predicate Between(body: Bytes, lo: nat, hi: nat, piece: Bytes) {
    lo <= hi <= |body| && body[lo..hi] == piece
  }

  /** How a list is written. */
  ghost predicate ListForm(e: Bytes, items: seq<Item>) {
    exists body ::
      && Joined(body, items)
      && if |body| < 56 then e == [0xc0 + |body|] + body
         else exists b :: Length(b, |body|) && e == [0xf7 + |b|] + b + body
  }

  /** The bytes of a number, most significant first and without zeros in front. */
  ghost predicate Minimal(d: Bytes, n: nat) {
    Num(d) == n && (d != [] ==> d[0] != 0)
  }

  lemma ShortestLength(n: nat)
    requires 0 < n < GO_MAX_LEN
    ensures Length(BigBytes(n), n)
  {
    GoLengthFits(n);
    NumBigBytes(n);
  }

  lemma {:induction false} MinimalBig(n: nat)
    ensures Minimal(BigBytes(n), n)
  {
    NumBigBytes(n);
    Leading(n);
  }

  lemma {:induction false} Leading(n: nat)
    ensures n > 0 ==> BigBytes(n) != [] && BigBytes(n)[0] != 0
  {
    if n > 0 { Leading(n / 256); }
  }

  /** There is one such form of a number. */
  lemma {:induction false} MinimalUnique(a: Bytes, b: Bytes)
    requires (a != [] ==> a[0] != 0) && (b != [] ==> b[0] != 0) && Num(a) == Num(b)
    ensures a == b
    decreases |a| + |b|
  {
    if a == [] {
      if b != [] { NumPositive(b); }
    } else if b == [] {
      NumPositive(a);
    } else {
      var a', b' := a[..|a| - 1], b[..|b| - 1];
      MinimalUnique(a', b');
      assert a == a' + [a[|a| - 1]] && b == b' + [b[|b| - 1]];
    }
  }

  lemma {:induction false} NumPositive(b: Bytes)
    requires b != [] && b[0] != 0
    ensures Num(b) > 0
  {
    if |b| > 1 { NumPositive(b[..|b| - 1]); }
  }

  lemma StringLayout(s: Bytes)
    requires |s| < GO_MAX_LEN
    ensures StringForm(EncodeString(s), s)
  {
    hide BigBytes, Num;
    if |s| >= 56 {
      ShortestLength(|s|);
      assert EncodeString(s) == [0xb7 + |BigBytes(|s|)|] + BigBytes(|s|) + s;
    }
  }

  lemma {:induction false} ItemsJoined(items: seq<Item>) returns (cuts: seq<nat>)
    ensures Cuts(EncodeAll(items), items, cuts)
  {
    hide Encode, Cuts;
    if items == [] {
      cuts := [0];
      NoneJoined(items);
    } else {
      var inner := ItemsJoined(items[1..]);
      cuts := OneMore(items, EncodeAll(items[1..]), inner);
    }
  }

  lemma NoneJoined(items: seq<Item>)
    requires items == []
    ensures Cuts(EncodeAll(items), items, [0])
  {
  }

  lemma OneMore(items: seq<Item>, rest: Bytes, inner: seq<nat>) returns (cuts: seq<nat>)
    requires items != [] && Cuts(rest, items[1..], inner)
    ensures Cuts(Encode(items[0]) + rest, items, cuts)
  {
    hide Encode;
    var first := Encode(items[0]);
    var body, n := first + rest, |first|;
    cuts := [0] + seq(|inner|, i requires 0 <= i < |inner| => n + inner[i]);
    forall i | 0 <= i < |items| ensures Between(body, cuts[i], cuts[i + 1], Encode(items[i])) {
      if i == 0 {
        assert cuts[0] == 0 && cuts[1] == n && body[0..n] == first;
      } else {
        assert items[1..][i - 1] == items[i] && cuts[i] == n + inner[i - 1] && cuts[i + 1] == n + inner[i];
        Further(first, rest, inner[i - 1], inner[i], Encode(items[i]));
      }
    }
  }

  lemma Further(first: Bytes, rest: Bytes, lo: nat, hi: nat, piece: Bytes)
    requires Between(rest, lo, hi, piece)
    ensures Between(first + rest, |first| + lo, |first| + hi, piece)
  {
    assert (first + rest)[|first| + lo..|first| + hi] == rest[lo..hi];
  }

  lemma ListLayout(items: seq<Item>)
    requires |Encode(List(items))| < GO_MAX_LEN
    ensures ListForm(Encode(List(items)), items)
  {
    hide BigBytes, Num, EncodeAll;
    var body := EncodeAll(items);
    var cuts := ItemsJoined(items);
    assert Joined(body, items);
    if |body| >= 56 {
      ShortestLength(|body|);
      assert Encode(List(items)) == [0xf7 + |BigBytes(|body|)|] + BigBytes(|body|) + body;
    }
  }

  /**
   * What the encoding of any value looks like: strings below 56 bytes after one byte, longer ones after their length in
   * its shortest form, numbers as their shortest strings, and lists after the length of their joined items.
   */
  lemma EncodeLayout(x: Item)
    requires |Encode(x)| < GO_MAX_LEN
    ensures match x
      case Nil => Encode(x) == [0xc0]
      case Raw(s) => StringForm(Encode(x), s)
      case Text(s) => StringForm(Encode(x), s)
      case U8(b) => StringForm(Encode(x), if b == 0 then [] else [b])
      case Big(n) => exists d :: Minimal(d, if n < 0 then -n else n) && StringForm(Encode(x), d)
      case List(items) => ListForm(Encode(x), items)
  {
    hide StringForm, Num, EncodeAll, ListForm;
    match x
    case Nil =>
    case Raw(s) => StringLayout(s);
    case Text(s) => StringLayout(s);
    case U8(b) =>
      assert BigBytes(b) == if b == 0 then [] else [b];
      StringLayout(BigBytes(b));
    case Big(n) =>
      MinimalBig(Abs(n));
      StringLayout(BigBytes(Abs(n)));
    case List(items) => ListLayout(items);
  }

  /** So a 32-byte hash takes 33 bytes. */
  lemma HashLayout(h: Bytes)
    requires |h| == 32
    ensures Encode(Raw(h)) == [0xa0] + h
  {
    hide Num;
    StringLayout(h);
  }

  // ----------------------------------------------------------------- parsing

  /** The items that a list loop reads from `at`: one after another until `len` bytes are consumed, or more. */
  ghost predicate Items(data: Bytes, at: nat, len: int, xs: seq<Item>, next: nat) {
    exists cuts: seq<nat> :: ItemCuts(data, at, len, xs, next, cuts)
  }

  ghost predicate ItemCuts(data: Bytes, at: nat, len: int, xs: seq<Item>, next: nat, cuts: seq<nat>) {
    && |cuts| == |xs| + 1 && cuts[0] == at && cuts[|xs|] == next && next >= at + len
    && forall i :: 0 <= i < |xs| ==> cuts[i] < at + len && Decode(data, cuts[i]) == Ok(xs[i], cuts[i + 1])
  }

  lemma {:induction false} ItemsRead(data: Bytes, at: nat, len: int)
    requires at <= |data| && DecodeItems(data, at, len).Ok?
    ensures Items(data, at, len, DecodeItems(data, at, len).value, DecodeItems(data, at, len).next)
    decreases |data| - at
  {
    hide Decode;
    var r := DecodeItems(data, at, len);
    if len <= 0 {
      assert ItemCuts(data, at, len, [], at, [at]);
    } else {
      var x := Decode(data, at);
      var left := len - (x.next - at);
      ItemsRead(data, x.next, left);
      var rest := DecodeItems(data, x.next, left);
      var cuts :| ItemCuts(data, x.next, left, rest.value, rest.next, cuts);
      assert ItemCuts(data, at, len, r.value, r.next, [at] + cuts);
    }
  }

  lemma {:induction false} ItemsOnly(data: Bytes, at: nat, len: int, xs: seq<Item>, next: nat, cuts: seq<nat>)
    requires at <= |data| && ItemCuts(data, at, len, xs, next, cuts)
    ensures DecodeItems(data, at, len) == Ok(xs, next)
    decreases |xs|
  {
    hide Decode;
    if xs != [] {
      assert Decode(data, cuts[0]) == Ok(xs[0], cuts[1]);
      var left := len - (cuts[1] - at);
      assert ItemCuts(data, cuts[1], left, xs[1..], next, cuts[1..]) by {
        forall i | 0 <= i < |xs[1..]|
          ensures cuts[1..][i] < cuts[1] + left && Decode(data, cuts[1..][i]) == Ok(xs[1..][i], cuts[1..][i + 1])
        {
          assert Decode(data, cuts[i + 1]) == Ok(xs[i + 1], cuts[i + 2]);
        }
      }
      ItemsOnly(data, cuts[1], left, xs[1..], next, cuts[1..]);
      assert xs == [xs[0]] + xs[1..];
    }
  }

  /** The payload that a first byte from 0x80 on announces, past the length's own bytes if there are any. */
  predicate Payload(data: Bytes, pos: nat, short: byte, at: nat, len: nat)
    requires pos < |data| && short + 0x37 < 0x100
  {
    if data[pos] <= short + 0x37 then at == pos + 1 && short + len == data[pos]
    else
      var l := data[pos] - (short + 0x37);
      0 < l <= 8 && at == pos + 1 + l <= |data| && len == Num(data[pos + 1..at])
  }

  lemma PrefixForm(data: Bytes, pos: nat)
    requires pos < |data| && data[pos] > 0x7f
    ensures match ReadPrefix(data, pos)
      case Single(_) => false
      case Str(at, len) => data[pos] <= 0xbf && Payload(data, pos, 0x80, at, len)
      case Lst(at, len) => data[pos] > 0xbf && Payload(data, pos, 0xc0, at, len)
      case Bad =>
        var l := data[pos] - (if data[pos] <= 0xbf then 0xb7 else 0xf7);
        l > 0 && pos + 1 + l > |data|
  {
    hide Num, ReadVarInt;
    var c := data[pos];
    var l := if 0xb7 < c <= 0xbf then c - 0xb7 else if c > 0xf7 then c - 0xf7 else 0;
    if pos + 1 + l <= |data| { ReadVarIntIsNum(data[pos + 1..pos + 1 + l]); }
  }

  /** What the parser makes of a string or a byte at a position, and when it panics. */
  lemma DecodeString(data: Bytes, pos: nat)
    requires pos < |data| && data[pos] <= 0xbf
    ensures data[pos] <= 0x7f ==> Decode(data, pos) == Ok(U8(data[pos]), pos + 1)
    ensures data[pos] > 0x7f ==> forall at: nat, len: nat :: Payload(data, pos, 0x80, at, len) ==>
      Decode(data, pos) == if at + len <= |data| then Ok(Raw(data[at..at + len]), at + len) else Panic
    ensures data[pos] > 0xb7 && pos + 1 + (data[pos] - 0xb7) > |data| ==> Decode(data, pos).Panic?
  {
    hide Num, ReadPrefix;
    if data[pos] <= 0x7f {
      ByteForm(data, pos);
    } else {
      PrefixForm(data, pos);
    }
  }

  lemma ByteForm(data: Bytes, pos: nat)
    requires pos < |data| && data[pos] <= 0x7f
    ensures ReadPrefix(data, pos) == Single(data[pos])
  {
  }

  /** What the parser makes of a list: items read one after another until its payload is used up, or more. */
  lemma DecodeList(data: Bytes, pos: nat, xs: seq<Item>, next: nat)
    requires pos < |data| && data[pos] > 0xbf
    ensures Decode(data, pos) == Ok(List(xs), next) <==>
      exists at: nat, len: nat :: Payload(data, pos, 0xc0, at, len) && at <= |data| && Items(data, at, len, xs, next)
  {
    hide Num, ReadPrefix, Items, Payload;
    PrefixForm(data, pos);
    var p := ReadPrefix(data, pos);
    if Decode(data, pos) == Ok(List(xs), next) {
      ItemsRead(data, p.at, p.len);
    }
    if exists at: nat, len: nat :: Payload(data, pos, 0xc0, at, len) && at <= |data| && Items(data, at, len, xs, next) {
      var at: nat, len: nat :| Payload(data, pos, 0xc0, at, len) && at <= |data| && Items(data, at, len, xs, next);
      PayloadOnce(data, pos, at, len);
      ItemsAre(data, at, len, xs, next);
    }
  }

  lemma ItemsAre(data: Bytes, at: nat, len: int, xs: seq<Item>, next: nat)
    requires at <= |data| && Items(data, at, len, xs, next)
    ensures DecodeItems(data, at, len) == Ok(xs, next)
  {
    hide ItemCuts;
    var cuts :| ItemCuts(data, at, len, xs, next, cuts);
    ItemsOnly(data, at, len, xs, next, cuts);
  }

  lemma PayloadOnce(data: Bytes, pos: nat, at: nat, len: nat)
    requires pos < |data| && data[pos] > 0xbf && Payload(data, pos, 0xc0, at, len)
    ensures ReadPrefix(data, pos) == Lst(at, len)
  {
    hide Num;
    PrefixForm(data, pos);
  }
}
