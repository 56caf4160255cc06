/** Byte strings and the big-endian number conversions of ethutil/bytes.go. */
module Bytes {

  type byte = x: int | 0 <= x < 256
  type Bytes = seq<byte>

  const TWO63 := 0x8000_0000_0000_0000
  const TWO64 := 0x1_0000_0000_0000_0000

  /** Go slice lengths are `int`s, so nothing longer than this exists. */
  const GO_MAX_LEN := TWO63

  function Abs(n: int): nat {
    if n < 0 then -n else n
  }

  /** The minimal big-endian form, as big.Int.Bytes returns it; empty for 0. */
  function BigBytes(n: nat): Bytes {
    if n == 0 then [] else BigBytes(n / 256) + [n % 256]
  }

  function Num(b: Bytes): nat {
    if b == [] then 0 else 256 * Num(b[..|b| - 1]) + b[|b| - 1]
  }

  function Pow256(k: nat): nat {
    if k == 0 then 1 else 256 * Pow256(k - 1)
  }

  lemma {:induction false} NumBigBytes(n: nat)
    ensures Num(BigBytes(n)) == n
  {
    if n != 0 {
      NumBigBytes(n / 256);
      assert BigBytes(n)[..|BigBytes(n)| - 1] == BigBytes(n / 256);
    }
  }

  /** A number below 256^k needs at most k bytes, and the first of them is never 0. */
  lemma {:induction false} BigBytesLength(n: nat, k: nat)
    requires n < Pow256(k)
    ensures |BigBytes(n)| <= k
    ensures n > 0 ==> |BigBytes(n)| > 0 && BigBytes(n)[0] > 0
  {
    if n != 0 {
      BigBytesLength(n / 256, k - 1);
    }
  }

  lemma GoLengthFits(n: nat)
    requires n < GO_MAX_LEN
    ensures |BigBytes(n)| <= 8
    ensures n > 0 ==> |BigBytes(n)| > 0 && BigBytes(n)[0] > 0
  {
    assert Pow256(8) == 0x1_0000_0000_0000_0000 by {
      assert Pow256(2) == 0x1_0000;
      assert Pow256(4) == 0x1_0000_0000;
      assert Pow256(6) == 0x1_0000_0000_0000;
    }
    BigBytesLength(n, 8);
  }

  function Zeros(n: nat): Bytes {
    seq(n, _ => 0)
  }

  /** LeftPadBytes: pad with leading zeros to width l, and leave longer slices alone. */
  function LeftPad(b: Bytes, l: nat): (r: Bytes)
    ensures |b| <= l ==> |r| == l
  {
    if l < |b| then b else Zeros(l - |b|) + b
  }

  /** Padded, a slice stands at the end, and only zeros before it. */
  lemma LeftPadLayout(b: Bytes, l: nat)
    ensures |b| >= l ==> LeftPad(b, l) == b
    ensures |b| < l ==> |LeftPad(b, l)| == l && forall i :: 0 <= i < l ==>
      LeftPad(b, l)[i] == if i < l - |b| then 0 else b[i - (l - |b|)]
  {
  }

  lemma {:induction false} NumZeros(k: nat, b: Bytes)
    ensures Num(Zeros(k) + b) == Num(b)
  {
    if b == [] {
      assert Zeros(k) + b == Zeros(k);
      if k > 0 {
        assert Zeros(k)[..k - 1] == Zeros(k - 1);
        NumZeros(k - 1, []);
        assert Zeros(k - 1) + [] == Zeros(k - 1);
      }
    } else {
      NumZeros(k, b[..|b| - 1]);
      assert (Zeros(k) + b)[..k + |b| - 1] == Zeros(k) + b[..|b| - 1];
    }
  }

  /** binary.Read of a w-byte unsigned integer: the first w bytes, or 0 when fewer are there. */
  function ReadUint(d: Bytes, w: nat): nat {
    if |d| < w then 0 else Num(d[..w])
  }

  /** ReadVarInt chooses a machine width from the slice length and pads to it. */
  function ReadVarInt(buff: Bytes): nat {
    if |buff| > 4 then ReadUint(LeftPad(buff, 8), 8)
    else if |buff| > 2 then ReadUint(LeftPad(buff, 4), 4)
    else if |buff| > 1 then ReadUint(LeftPad(buff, 2), 2)
    else ReadUint(buff, 1)
  }

  /** Up to eight bytes the width chosen makes no difference; past eight the tail is ignored. */
  lemma ReadVarIntIsNum(buff: Bytes)
    ensures |buff| <= 8 ==> ReadVarInt(buff) == Num(buff)
    ensures |buff| > 8 ==> ReadVarInt(buff) == Num(buff[..8])
  {
    if |buff| <= 1 {
      assert |buff| == 1 ==> buff[..1] == buff;
    } else if |buff| <= 8 {
      var w := if |buff| > 4 then 8 else if |buff| > 2 then 4 else 2;
      NumZeros(w - |buff|, buff);
      assert LeftPad(buff, w)[..w] == LeftPad(buff, w);
    }
  }
}
