/** The mnemonic codec of ethcrypto/mnemonic.go. The word list is a parameter. */
module Mnemonic {

  const N := 1626

  type Words = seq<string>

  ghost predicate WordList(words: Words) {
    |words| == N && forall i, j :: 0 <= i < j < N ==> words[i] != words[j]
  }

  // ------------------------------------------------------------- hex digits

  predicate IsHex(c: char) {
    '0' <= c <= '9' || 'a' <= c <= 'f'
  }

  /** Lower-case digits, as the encoder of keys prints them. */
  predicate AllHex(s: string) {
    forall i :: 0 <= i < |s| ==> IsHex(s[i])
  }

  predicate IsDigit(c: char) {
    IsHex(c) || 'A' <= c <= 'F'
  }

  /** What ParseInt takes for digits. */
  predicate AllDigits(s: string) {
    forall i :: 0 <= i < |s| ==> IsDigit(s[i])
  }

  function HexVal(c: char): (v: nat)
    requires IsDigit(c)
    ensures v < 16
  {
    if '0' <= c <= '9' then c as int - '0' as int
    else if 'a' <= c <= 'f' then c as int - 'a' as int + 10
    else c as int - 'A' as int + 10
  }

  function HexChar(v: nat): (c: char)
    requires v < 16
    ensures IsHex(c) && HexVal(c) == v
  {
    if v < 10 then ('0' as int + v) as char else ('a' as int + v - 10) as char
  }

  function Pow16(k: nat): nat {
    if k == 0 then 1 else 16 * Pow16(k - 1)
  }

  function ParseHex(s: string): (v: nat)
    requires AllDigits(s)
    ensures v < Pow16(|s|)
  {
    if s == [] then 0 else 16 * ParseHex(s[..|s| - 1]) + HexVal(s[|s| - 1])
  }

  /** strconv.ParseInt(s, 16, 64) on a short string: an optional sign and digits; anything else gives 0. */
  function ParseInt(s: string): int {
    if s != [] && s[0] == '-' then -(Magnitude(s[1..]) as int)
    else if s != [] && s[0] == '+' then Magnitude(s[1..])
    else Magnitude(s)
  }

  function Magnitude(s: string): nat {
    if AllDigits(s) then ParseHex(s) else 0
  }

  lemma ParsePlain(s: string)
    requires AllHex(s)
    ensures ParseInt(s) == ParseHex(s)
  {
  }

  /** A chunk stands for a number of 32 bits, or for a negative one of 28. */
  lemma ChunkFits(s: string)
    requires |s| == 8
    ensures -0x1000_0000 < ParseInt(s) < 0x1_0000_0000
  {
    assert Pow16(3) == 0x1000 && Pow16(4) == 0x1_0000;
    assert Pow16(7) == 0x1000_0000 && Pow16(8) == 0x1_0000_0000;
  }

  /** Sprintf("%0kx", v): k digits, and more only for numbers that need them. */
  function FormatHex(v: nat, k: nat): string
    decreases v, k
  {
    if k == 0 && v == 0 then [] else FormatHex(v / 16, if k == 0 then 0 else k - 1) + [HexChar(v % 16)]
  }

  /** Sprintf("%08x", x): the sign of a negative number takes one of the eight places. */
  function GoHex(x: int): string {
    if x < 0 then "-" + FormatHex(-x, 7) else FormatHex(x, 8)
  }

  lemma {:induction false} FormatParse(s: string)
    requires AllHex(s)
    ensures FormatHex(ParseHex(s), |s|) == s
  {
    if s != [] {
      var init, last := s[..|s| - 1], s[|s| - 1];
      FormatParse(init);
      var v := ParseHex(s);
      assert v / 16 == ParseHex(init) && v % 16 == HexVal(last);
      assert HexChar(HexVal(last)) == last;
    }
  }

  // ------------------------------------------------------------- one chunk

  datatype Triple = Triple(w1: int, w2: int, w3: int)

  /** Go's division truncates, and its remainder takes the sign of the dividend. */
  function Quot(a: int): int {
    if a >= 0 then a / N else -((-a) / N)
  }

  function Rem(a: int): (r: int)
    ensures -N < r < N
  {
    if a >= 0 then a % N else -((-a) % N)
  }

  function Split(bit: int): (t: Triple)
    ensures t.w1 < N && t.w2 < N && t.w3 < N
  {
    var w1 := Rem(bit);
    var w2 := Rem(Quot(bit) + w1);
    var w3 := Rem(Quot(Quot(bit)) + w2);
    Triple(w1, w2, w3)
  }

  /** An index that the word list has; a negative one panics. */
  predicate InList(t: Triple) {
    0 <= t.w1 < N && 0 <= t.w2 < N && 0 <= t.w3 < N
  }

  /** A negative chunk always gives a negative index. */
  lemma SplitInList(bit: int)
    requires -0x1000_0000 < bit < 0x1_0000_0000
    ensures InList(Split(bit)) <==> bit >= 0
  {
    if bit < 0 {
      var a := -bit;
      var q, r := a / N, a % N;
      assert a == q * N + r && Quot(bit) == -q;
      if r == 0 {
        assert q > 0 && q == (q / N) * N + q % N;
        if q % N == 0 { DivUnique(q / N, 0, q / N); }
      }
    }
  }

  /** The code adds N to a negative remainder. */

  function Wrapped(a: int): int {
    if Rem(a) < 0 then Rem(a) + N else Rem(a)
  }

  function Combine(t: Triple): int {
    t.w1 + N * Wrapped(t.w2 - t.w1) + N * N * Wrapped(t.w3 - t.w2)
  }

  lemma Difference(a: nat, w: nat)
    requires w < N
    ensures Wrapped((a + w) % N - w) == a % N
  {
    var q, r := a / N, a % N;
    assert a + w == q * N + (r + w);
    if r + w < N {
      DivUnique(a + w, q, r + w);
    } else {
      DivUnique(a + w, q + 1, r + w - N);
    }
  }

  lemma DivUnique(a: nat, q: nat, r: nat)
    requires a == q * N + r && r < N
    ensures a / N == q && a % N == r
  {
  }

  /** Three words hold 32 bits, because 1626 cubed exceeds 2 to the 32. */
  lemma ChunkRoundTrip(bit: nat)
    requires bit < 0x1_0000_0000
    ensures InList(Split(bit)) && Combine(Split(bit)) == bit
  {
    hide Wrapped;
    var a := bit / N;
    var b := a / N;
    Difference(a, bit % N);
    Difference(b, (a + bit % N) % N);
    assert a < 2641446 && b < 1625;
    DivUnique(b, 0, b);
    assert a == b * N + a % N && bit == a * N + bit % N;
  }

  // ------------------------------------------------------------- the codec

  function Three(words: Words, t: Triple): (r: seq<string>)
    requires |words| == N && InList(t)
    ensures |r| == 3
  {
    [words[t.w1], words[t.w2], words[t.w3]]
  }

  /** No chunk of eight characters reads as a negative number. */
  predicate Positive(chunks: string)
    requires |chunks| % 8 == 0
  {
    chunks == [] || (ParseInt(chunks[..8]) >= 0 && Positive(chunks[8..]))
  }

  /** The words of consecutive chunks. */
  function Spell(words: Words, chunks: string): (r: seq<string>)
    requires |words| == N && |chunks| % 8 == 0 && Positive(chunks)
    ensures 8 * |r| == 3 * |chunks|
  {
    if chunks == [] then []
    else
      ChunkFits(chunks[..8]);
      SplitInList(ParseInt(chunks[..8]));
      Three(words, Split(ParseInt(chunks[..8]))) + Spell(words, chunks[8..])
  }

  /** The chunks the encoder reads: it steps by an eighth of the message, whatever its length. */
  function Chunks(message: string, i: nat): (r: string)
    ensures |r| % 8 == 0
    decreases |message| - i
  {
    if i >= |message| || i + 8 > |message| then [] else message[i..i + 8] + Chunks(message, i + |message| / 8)
  }

  /** The messages whose eighths the encoder can read: none, or 64 characters or more in eight equal parts. */
  predicate Even(message: string) {
    message == [] || (|message| >= 64 && |message| % 8 == 0)
  }

  /** The first position of a word, or -1. */
  function Find(slice: Words, value: string): (k: int)
    ensures -1 <= k < |slice|
    ensures if k == -1 then value !in slice else slice[k] == value && value !in slice[..k]
  {
    if slice == [] then -1
    else if slice[0] == value then 0
    else
      var k := Find(slice[1..], value);
      if k == -1 then -1 else k + 1
  }

  /** The digits that three words stand for; an unknown word counts as index -1. */
  function Digits(words: Words, three: seq<string>): string
    requires |three| == 3
  {
    GoHex(Combine(Triple(Find(words, three[0]), Find(words, three[1]), Find(words, three[2]))))
  }

  function Unspell(words: Words, wordsar: seq<string>): string
    requires |wordsar| % 3 == 0
  {
    if wordsar == [] then [] else Digits(words, wordsar[..3]) + Unspell(words, wordsar[3..])
  }

  lemma ChunksEnd(message: string, i: nat, k: nat, j: nat)
    requires i == j * k && 8 * k <= |message| < 8 * k + 8 && k >= 1
    ensures i < |message| && i + 8 > |message| ==> !Even(message)
    ensures i >= |message| && (j >= 1 ==> (j - 1) * k + 8 <= |message|) ==> Even(message)
  {
    if i < |message| && i + 8 > |message| && Even(message) {
      if j >= 8 { AtMost(8, j, k); } else { AtMost(j, 7, k); }
    }
    if i >= |message| && (j >= 1 ==> (j - 1) * k + 8 <= |message|) {
      if j >= 9 { AtMost(8, j - 1, k); }
      if j <= 7 { AtMost(j, 7, k); }
    }
  }

  lemma AtMost(a: nat, b: nat, k: nat)
    requires a <= b
    ensures a * k <= b * k
  {
  }

  /** MnemonicEncode; it slices past the end, or indexes before the start of the list, and panics, unless ok. */
  method MnemonicEncode(words: Words, message: string) returns (ok: bool, out: seq<string>)
    requires |words| == N
    ensures ok <==> Even(message) && Positive(Chunks(message, 0))
    ensures ok ==> out == Spell(words, Chunks(message, 0))
  {
    hide ParseInt, Even, Split, Spell, Positive, Chunks;
    out := [];
    var i := 0;
    ghost var j, k := 0, |message| / 8;
    EvenLength(message);
    while i < |message|
      invariant i == j * k && (j >= 1 ==> (j - 1) * k + 8 <= |message| && |message| >= 8)
      invariant Positive(Chunks(message, 0)) <==> Positive(Chunks(message, i))
      invariant Positive(Chunks(message, 0)) ==> out + Spell(words, Chunks(message, i)) == Spell(words, Chunks(message, 0))
      decreases |message| - i
    {
      if |message| >= 8 { ChunksEnd(message, i, k, j); }
      if i + 8 > |message| { return false, out; }
      ChunksStep(words, message, i);
      var bit := ParseInt(message[i..i + 8]);
      ChunkFits(message[i..i + 8]);
      SplitInList(bit);
      var t := Split(bit);
      if t.w1 < 0 || t.w2 < 0 || t.w3 < 0 { return false, out; }
      out := out + [words[t.w1], words[t.w2], words[t.w3]];
      i := i + |message| / 8;
      j := j + 1;
    }
    if |message| >= 8 { ChunksEnd(message, i, k, j); }
    ChunksNone(words, message, i);
    ok := true;
  }

  lemma ChunksNone(words: Words, message: string, i: nat)
    requires |words| == N && i >= |message|
    ensures var c := Chunks(message, i); Positive(c) && Spell(words, c) == []
  {
  }

  lemma EvenLength(message: string)
    ensures 0 < |message| < 8 ==> !Even(message)
    ensures message == [] ==> Even(message)
  {
  }

  lemma ChunksStep(words: Words, message: string, i: nat)
    requires |words| == N && i + 8 <= |message|
    ensures var c, rest := message[i..i + 8], Chunks(message, i + |message| / 8);
      && (Positive(Chunks(message, i)) <==> ParseInt(c) >= 0 && Positive(rest))
      && (Positive(Chunks(message, i)) ==>
            InList(Split(ParseInt(c))) && Spell(words, Chunks(message, i)) == Three(words, Split(ParseInt(c))) + Spell(words, rest))
  {
    hide ParseInt, Split, Three;
    var c, rest, all := message[i..i + 8], Chunks(message, i + |message| / 8), Chunks(message, i);
    assert all[..8] == c && all[8..] == rest;
    ChunkFits(c);
    SplitInList(ParseInt(c));
  }

  method IndexOf(slice: Words, value: string) returns (p: int)
    ensures p == Find(slice, value)
  {
    for i := 0 to |slice|
      invariant Find(slice, value) == var k := Find(slice[i..], value); if k == -1 then -1 else i + k
    {
      assert slice[i..][0] == slice[i] && slice[i..][1..] == slice[i + 1..];
      if slice[i] == value { return i; }
    }
    return -1;
  }

  lemma UnspellNone(words: Words)
    ensures Unspell(words, []) == []
  {
  }

  lemma UnspellStep(words: Words, wordsar: seq<string>, i: nat)
    requires |wordsar| % 3 == 0 && i % 3 == 0 && i + 3 <= |wordsar|
    ensures Unspell(words, wordsar[i..]) == Digits(words, wordsar[i..i + 3]) + Unspell(words, wordsar[i + 3..])
  {
    hide Digits;
    var w := wordsar[i..];
    assert w[..3] == wordsar[i..i + 3] && w[3..] == wordsar[i + 3..];
  }

  /** MnemonicDecode; it indexes past the end, and panics, unless the words come in threes. */
  method MnemonicDecode(words: Words, wordsar: seq<string>) returns (ok: bool, out: string)
    ensures ok <==> |wordsar| % 3 == 0
    ensures ok ==> out == Unspell(words, wordsar)
  {
    hide Unspell, Find, GoHex, Rem;
    out := [];
    var i := 0;
    assert wordsar[0..] == wordsar;
    while i < |wordsar|
      invariant 0 <= i <= |wordsar| && i % 3 == 0
      invariant |wordsar| % 3 == 0 ==> out + Unspell(words, wordsar[i..]) == Unspell(words, wordsar)
    {
      if i + 2 >= |wordsar| { return false, out; }
      var w1 := IndexOf(words, wordsar[i]);
      var w2 := IndexOf(words, wordsar[i + 1]);
      var w3 := IndexOf(words, wordsar[i + 2]);
      var y := Rem(w2 - w1);
      var z := Rem(w3 - w2);
      if z < 0 { z := z + N; }
      if y < 0 { y := y + N; }
      var x := w1 + N * y + N * N * z;
      assert x == Combine(Triple(w1, w2, w3));
      if |wordsar| % 3 == 0 { UnspellStep(words, wordsar, i); }
      out := out + GoHex(x);
      i := i + 3;
    }
    ok := true;
    assert |wordsar| % 3 == 0 ==> Unspell(words, wordsar[i..]) == [] by { UnspellNone(words); }
  }

  lemma {:induction false} FindWord(words: Words, w: nat)
    requires w < |words| && forall i, j :: 0 <= i < j < |words| ==> words[i] != words[j]
    ensures Find(words, words[w]) == w
  {
    if w > 0 {
      var rest := words[1..];
      assert forall i, j :: 0 <= i < j < |rest| ==> rest[i] == words[i + 1] && rest[j] == words[j + 1];
      FindWord(rest, w - 1);
    }
  }

  /** One chunk: three words give back the number it reads as, in eight lower-case digits. */
  lemma DigitsOfChunk(words: Words, chunk: string)
    requires WordList(words) && |chunk| == 8 && ParseInt(chunk) >= 0
    ensures InList(Split(ParseInt(chunk)))
    ensures var d := Digits(words, Three(words, Split(ParseInt(chunk)))); |d| == 8 && AllHex(d) && (AllHex(chunk) ==> d == chunk)
  {
    hide Combine, ParseInt, ParseHex, FormatHex, Split, Find;
    var bit := ParseInt(chunk);
    ChunkFits(chunk);
    ChunkRoundTrip(bit);
    var t := Split(bit);
    FindWord(words, t.w1);
    FindWord(words, t.w2);
    FindWord(words, t.w3);
    assert 0x1_0000_0000 == Pow16(8) by { assert Pow16(4) == 0x1_0000; }
    FormatDigits(bit, 8);
    if AllHex(chunk) {
      ParsePlain(chunk);
      FormatParse(chunk);
    }
  }

  lemma {:induction false} FormatDigits(v: nat, k: nat)
    requires v < Pow16(k)
    ensures |FormatHex(v, k)| == k && AllHex(FormatHex(v, k))
  {
    if k > 0 { FormatDigits(v / 16, k - 1); }
  }

  /** Decoding the words of any chunks gives as many lower-case digits, and the chunks themselves if they were such. */
  lemma {:induction false} MnemonicRoundTrip(words: Words, chunks: string)
    requires WordList(words) && |chunks| % 8 == 0 && Positive(chunks)
    ensures var s := Spell(words, chunks);
      && |s| % 3 == 0 && |Unspell(words, s)| == |chunks| && AllHex(Unspell(words, s))
      && (AllHex(chunks) ==> Unspell(words, s) == chunks)
  {
    hide Digits, Three, ParseInt, Split;
    if chunks != [] {
      DigitsOfChunk(words, chunks[..8]);
      MnemonicRoundTrip(words, chunks[8..]);
      ThreeOff(words, Three(words, Split(ParseInt(chunks[..8]))), Spell(words, chunks[8..]));
    }
  }

  lemma ThreeOff(words: Words, head: seq<string>, rest: seq<string>)
    requires |head| == 3 && |rest| % 3 == 0
    ensures Unspell(words, head + rest) == Digits(words, head) + Unspell(words, rest)
  {
    hide Digits;
    assert (head + rest)[..3] == head && (head + rest)[3..] == rest;
  }

  lemma {:induction false} HexPositive(chunks: string)
    requires |chunks| % 8 == 0 && AllHex(chunks)
    ensures Positive(chunks)
  {
    if chunks != [] {
      ParsePlain(chunks[..8]);
      HexPositive(chunks[8..]);
    }
  }

  lemma {:induction false} ChunksLength(message: string, j: nat)
    requires |message| >= 64 && |message| % 8 == 0 && j <= 8
    ensures |Chunks(message, j * (|message| / 8))| == 8 * (8 - j)
    ensures |message| == 64 ==> Chunks(message, j * (|message| / 8)) == message[8 * j..]
    decreases 8 - j
  {
    if j < 8 {
      var k := |message| / 8;
      AtMost(j, 7, k);
      assert (j + 1) * k == j * k + k;
      ChunksLength(message, j + 1);
      if |message| == 64 { assert message[8 * j..] == message[8 * j..8 * j + 8] + message[8 * (j + 1)..]; }
    }
  }

  /**
   * For every string: it is encoded without a panic and decoded to itself exactly when it is empty or consists of 64
   * lower-case hex digits, as a private key does.
   */
  lemma RoundTripExactly(words: Words, message: string)
    requires WordList(words)
    ensures var c := Chunks(message, 0);
      Even(message) && Positive(c) && |Spell(words, c)| % 3 == 0 && Unspell(words, Spell(words, c)) == message
      <==> message == [] || (|message| == 64 && AllHex(message))
  {
    hide Spell, Unspell;
    var c := Chunks(message, 0);
    if message != [] && Even(message) { ChunksLength(message, 0); }
    if |message| == 64 && AllHex(message) { HexPositive(c); }
    if Even(message) && Positive(c) { MnemonicRoundTrip(words, c); }
  }

  /** Different keys have different words. */
  lemma SpellInjective(words: Words, a: string, b: string)
    requires WordList(words) && AllHex(a) && AllHex(b) && |a| % 8 == 0 && |b| % 8 == 0
    requires Positive(a) && Positive(b) && Spell(words, a) == Spell(words, b)
    ensures a == b
  {
    MnemonicRoundTrip(words, a);
    MnemonicRoundTrip(words, b);
  }

  // -------------------------------------------------------------- word by word

  /** The first three words of a message that reads as a number: its last digit to the base 1626, and two running sums. */
  lemma FirstWords(words: Words, chunks: string, x: nat)
    requires WordList(words) && |chunks| % 8 == 0 && Positive(chunks) && chunks != [] && ParseInt(chunks[..8]) == x
    ensures var r := Spell(words, chunks);
      && |r| >= 3
      && r[0] == words[x % 1626]
      && r[1] == words[(x / 1626 + x % 1626) % 1626]
      && r[2] == words[(x / 1626 / 1626 + (x / 1626 + x % 1626) % 1626) % 1626]
      && r[3..] == Spell(words, chunks[8..])
  {
    hide Split, ParseInt;
    ChunkFits(chunks[..8]);
    SplitInList(x);
    SplitIs(x);
    var t := Split(x);
    assert Spell(words, chunks) == [words[t.w1], words[t.w2], words[t.w3]] + Spell(words, chunks[8..]);
  }

  lemma SplitIs(x: nat)
    ensures var t := Split(x);
      && t.w1 == x % 1626 && t.w2 == (x / 1626 + t.w1) % 1626 && t.w3 == (x / 1626 / 1626 + t.w2) % 1626
  {
  }

  /** Three words of the list, read back: the first is the lowest digit, the others count from the ones before them. */
  lemma ThreeRead(words: Words, i: nat, j: nat, k: nat)
    requires WordList(words) && i < 1626 && j < 1626 && k < 1626
    ensures Unspell(words, [words[i], words[j], words[k]])
         == GoHex(i + 1626 * ((j - i) % 1626) + 1626 * 1626 * ((k - j) % 1626))
  {
    hide GoHex, Find;
    FindWord(words, i);
    FindWord(words, j);
    FindWord(words, k);
    Wraps(j - i);
    Wraps(k - j);
    var three := [words[i], words[j], words[k]];
    assert three[..3] == three && three[3..] == [];
    UnspellNone(words);
    assert Unspell(words, three) == Digits(words, three) + [];
  }

  lemma Wraps(a: int)
    requires -1626 < a < 1626
    ensures Wrapped(a) == a % 1626
  {
  }
}
