/**
 * Nibble paths and the hex-prefix code of ethtrie/encoding.go and ethtrie/slice.go
 * (Appendix C of the Ethereum Yellow Paper). The number 16 ends a full key.
 */
module HexPrefix {
  import opened Bytes

  const TERM := 16

  type Path = seq<int>

  /** Nibbles only. */
  predicate Partial(k: Path) {
    forall i :: 0 <= i < |k| ==> 0 <= k[i] < 16
  }

  /** Nibbles followed by the terminator. */
  predicate Full(k: Path) {
    |k| > 0 && k[|k| - 1] == TERM && Partial(k[..|k| - 1])
  }

  predicate PathOk(k: Path) {
    Partial(k) || Full(k)
  }

  function Unpack(b: Bytes): (r: Path)
    ensures |r| == 2 * |b|
    ensures Partial(r)
  {
    if b == [] then [] else [b[0] / 16, b[0] % 16] + Unpack(b[1..])
  }

  /** Two nibbles in one byte; the conversion to a byte truncates. */
  function Pair(hi: int, lo: int): (r: byte)
    ensures 0 <= hi < 16 && 0 <= lo < 16 ==> r / 16 == hi && r % 16 == lo
  {
    (16 * hi + lo) % 256
  }

  function Pack(ns: Path): (r: Bytes)
    ensures |r| == |ns| / 2
  {
    if |ns| < 2 then [] else [Pair(ns[0], ns[1])] + Pack(ns[2..])
  }

  lemma {:induction false} PackUnpack(b: Bytes)
    ensures Pack(Unpack(b)) == b
  {
    if b != [] {
      PackUnpack(b[1..]);
      assert Unpack(b)[2..] == Unpack(b[1..]);
    }
  }

  lemma {:induction false} UnpackPack(ns: Path)
    requires Partial(ns) && |ns| % 2 == 0
    ensures Unpack(Pack(ns)) == ns
  {
    hide Pair;
    if ns != [] {
      UnpackPack(ns[2..]);
      assert Pack(ns)[1..] == Pack(ns[2..]);
      assert ns == [ns[0], ns[1]] + ns[2..];
    }
  }

  // --------------------------------------------------------------- functions

  /** CompactHexDecode: the nibbles of a key, then the terminator. */
  function KeyPath(key: Bytes): (k: Path)
    ensures Full(k)
  {
    var k := Unpack(key) + [TERM];
    assert k[..|k| - 1] == Unpack(key);
    k
  }

  /** The flag nibble and padding in front of a path. */
  function Flagged(k: Path): (r: Path)
    requires k != []
    ensures |r| % 2 == 0 && |r| >= 2
  {
    var term := k[|k| - 1] == TERM;
    var body := if term then k[..|k| - 1] else k;
    var odd := |body| % 2;
    var flags := (if term then 2 else 0) + odd;
    if odd == 1 then [flags] + body else [flags, 0] + body
  }

  function CompactEncode(k: Path): (r: Bytes)
    requires k != []
    ensures |r| == |Flagged(k)| / 2
  {
    Pack(Flagged(k))
  }

  function Unflagged(base: Path): Path
    requires |base| >= 2
  {
    var ended := if base[0] >= 2 then base + [TERM] else base;
    if ended[0] % 2 == 1 then ended[1..] else ended[2..]
  }

  function CompactDecode(str: Bytes): Path
    requires str != []
  {
    Unflagged(Unpack(str))
  }

  // --------------------------------------------------------------- methods

  lemma PackStep(ns: Path, i: nat)
    requires i + 2 <= |ns|
    ensures Pack(ns[i..]) == [Pair(ns[i], ns[i + 1])] + Pack(ns[i + 2..])
  {
    assert ns[i..][2..] == ns[i + 2..];
  }

  method CompactEncodeLoop(k: Path) returns (r: Bytes)
    requires k != []
    ensures r == CompactEncode(k)
  {
    hide Pair, Flagged, Pack;
    var hexSlice := Flagged(k);
    r := [];
    assert hexSlice[0..] == hexSlice;
    var i := 0;
    while i < |hexSlice|
      invariant 0 <= i <= |hexSlice| && i % 2 == 0
      invariant r + Pack(hexSlice[i..]) == Pack(hexSlice)
    {
      PackStep(hexSlice, i);
      r := r + [Pair(hexSlice[i], hexSlice[i + 1])];
      i := i + 2;
    }
    assert hexSlice[i..] == [] && |Pack([])| == 0;
  }

  /** DecodeCompact: drop the terminator and pack what is left. What half a byte gives is not stated. */
  method DecodeCompact(k: Path) returns (key: Bytes)
    requires PathOk(k)
    ensures Full(k) && |k| % 2 == 1 ==> KeyPath(key) == k
    ensures |Body(k)| % 2 == 0 ==> key == Pack(Body(k))
  {
    var ns: Path := [];
    for i := 0 to |k|
      invariant forall j :: 0 <= j < i && j < |k| - 1 ==> 0 <= k[j] < 16
      invariant i < |k| ==> ns == k[..i]
      invariant i == |k| ==> ns == if Full(k) then k[..|k| - 1] else k
    {
      if k[i] < 16 { ns := ns + [k[i]]; }
      assert k[..i + 1] == k[..i] + [k[i]];
      assert Full(k) ==> (i < |k| - 1 ==> k[i] == k[..|k| - 1][i]);
    }
    if Full(k) && |k| % 2 == 1 {
      UnpackPack(ns);
      assert ns + [TERM] == k;
    }
    key := Pack(ns);
  }

  method CompareIntSlice(a: Path, b: Path) returns (same: bool)
    ensures same <==> a == b
  {
    if |a| != |b| { return false; }
    for i := 0 to |a|
      invariant a[..i] == b[..i]
    {
      if a[i] != b[i] { return false; }
    }
    return true;
  }

  /** The length of the longest common prefix. */
  function Match(a: Path, b: Path): (m: nat)
    ensures m <= |a| && m <= |b| && a[..m] == b[..m]
    ensures m < |a| && m < |b| ==> a[m] != b[m]
  {
    if a == [] || b == [] || a[0] != b[0] then 0
    else
      var m := Match(a[1..], b[1..]);
      assert a[..m + 1] == [a[0]] + a[1..][..m] && b[..m + 1] == [b[0]] + b[1..][..m];
      m + 1
  }

  lemma MatchUnique(a: Path, b: Path, m: nat)
    requires m <= |a| && m <= |b| && a[..m] == b[..m]
    requires m < |a| && m < |b| ==> a[m] != b[m]
    ensures m == Match(a, b)
  {
  }

  method MatchingNibbleLength(a: Path, b: Path) returns (i: nat)
    ensures i == Match(a, b)
  {
    i := 0;
    var length := if |a| < |b| then |a| else |b|;
    while i < length
      invariant i <= length && a[..i] == b[..i]
    {
      if a[i] != b[i] { break; }
      i := i + 1;
    }
    MatchUnique(a, b, i);
  }

  // -------------------------------------------------------------- properties

  function Body(k: Path): Path {
    if Full(k) then k[..|k| - 1] else k
  }

  lemma FlaggedShape(k: Path)
    requires k != [] && PathOk(k)
    ensures Partial(Body(k)) && Partial(Flagged(k))
    ensures var f := Flagged(k);
            f[0] == (if Full(k) then 2 else 0) + |Body(k)| % 2 && f[2 - |Body(k)| % 2..] == Body(k)
  {
    assert Full(k) <==> k[|k| - 1] == TERM;
  }

  lemma Unflag(k: Path)
    requires k != [] && PathOk(k)
    ensures Unflagged(Flagged(k)) == k
  {
    FlaggedShape(k);
    hide Flagged;
    var f, n := Flagged(k), 2 - |Body(k)| % 2;
    assert (f + [TERM])[n..] == Body(k) + [TERM];
    assert Full(k) ==> Body(k) + [TERM] == k;
  }

  /** CompactDecode undoes CompactEncode on every path the trie stores. */
  lemma CompactRoundTrip(k: Path)
    requires k != [] && PathOk(k)
    ensures CompactDecode(CompactEncode(k)) == k
  {
    FlaggedShape(k);
    UnpackPack(Flagged(k));
    Unflag(k);
  }

  lemma CompactInjective(k1: Path, k2: Path)
    requires k1 != [] && PathOk(k1) && k2 != [] && PathOk(k2)
    requires CompactEncode(k1) == CompactEncode(k2)
    ensures k1 == k2
  {
    CompactRoundTrip(k1);
    CompactRoundTrip(k2);
  }

  lemma KeyPathInjective(a: Bytes, b: Bytes)
    requires KeyPath(a) == KeyPath(b)
    ensures a == b
  {
    assert Unpack(a) == KeyPath(a)[..|KeyPath(a)| - 1];
    assert Unpack(b) == KeyPath(b)[..|KeyPath(b)| - 1];
    PackUnpack(a);
    PackUnpack(b);
  }

  /** No full key is a proper prefix of another path. */
  lemma FullNotPrefix(a: Path, b: Path)
    requires Full(a) && PathOk(b) && |a| <= |b| && b[..|a|] == a
    ensures a == b
  {
    assert b[|a| - 1] == TERM;
    assert |b| == |a|;
  }

  /** A hex-prefix string never is the single byte 0: a flag nibble of an odd path is odd, and 0x20 stands for the bare terminator. */
  lemma CompactNotZero(k: Path)
    requires k != [] && PathOk(k)
    ensures CompactEncode(k) != [0] && CompactEncode(k) != []
    ensures |CompactEncode(k)| == 1 ==> 0x10 <= CompactEncode(k)[0] <= 0x3f
  {
    var f := Flagged(k);
    if |f| == 2 {
      var body := if Full(k) then k[..|k| - 1] else k;
      assert Full(k) <==> k[|k| - 1] == TERM;
      assert Partial(body);
      assert CompactEncode(k)[0] == 16 * f[0] + f[1];
    }
  }

  // -------------------------------------------------------- nibble by nibble

  lemma {:induction false} UnpackAt(b: Bytes, i: nat)
    requires i < |b|
    ensures Unpack(b)[2 * i] == b[i] / 16 && Unpack(b)[2 * i + 1] == b[i] % 16
  {
    if i > 0 { UnpackAt(b[1..], i - 1); }
  }

  lemma {:induction false} PackAt(ns: Path, i: nat)
    requires 2 * i + 1 < |ns| && 0 <= ns[2 * i] < 16 && 0 <= ns[2 * i + 1] < 16
    ensures Pack(ns)[i] == 16 * ns[2 * i] + ns[2 * i + 1]
  {
    if i > 0 { PackAt(ns[2..], i - 1); }
  }

  /** The path of a key: the high half of each byte, then the low half, and 16 at the end. */
  lemma KeyPathLayout(key: Bytes)
    ensures |KeyPath(key)| == 2 * |key| + 1 && KeyPath(key)[2 * |key|] == 16
    ensures forall i :: 0 <= i < |key| ==> KeyPath(key)[2 * i] == key[i] / 16 && KeyPath(key)[2 * i + 1] == key[i] % 16
  {
    forall i | 0 <= i < |key| ensures KeyPath(key)[2 * i] == key[i] / 16 && KeyPath(key)[2 * i + 1] == key[i] % 16 {
      UnpackAt(key, i);
    }
  }

  /**
   * The hex-prefix form of a path. The first half byte is 2 for a path with the terminator plus 1 for an odd number of
   * other nibbles; then come the first nibble or a 0, and the other nibbles by twos.
   */
  lemma CompactLayout(k: Path)
    requires k != [] && PathOk(k)
    ensures var term := k[|k| - 1] == 16;
      var n, e := if term then |k| - 1 else |k|, CompactEncode(k);
      && |e| == n / 2 + 1 && e[0] / 16 == (if term then 2 else 0) + n % 2
      && (n % 2 == 0 ==> e[0] % 16 == 0 && forall i :: 0 <= i < n / 2 ==> e[1 + i] == 16 * k[2 * i] + k[2 * i + 1])
      && (n % 2 == 1 ==> e[0] % 16 == k[0] && forall i :: 0 <= i < n / 2 ==> e[1 + i] == 16 * k[2 * i + 1] + k[2 * i + 2])
  {
    hide Pack;
    var f := Flagged(k);
    var body := if k[|k| - 1] == TERM then k[..|k| - 1] else k;
    assert Partial(body) && forall i :: 0 <= i < |body| ==> body[i] == k[i];
    forall i | 0 <= i < |f| / 2 ensures Pack(f)[i] == 16 * f[2 * i] + f[2 * i + 1] { PackAt(f, i); }
    assert |f| / 2 > 0 && Pack(f)[0] == 16 * f[2 * 0] + f[2 * 0 + 1];
  }

  /** So a whole key is written after the byte 0x20. */
  lemma KeyLayout(key: Bytes)
    ensures CompactEncode(KeyPath(key)) == [0x20] + key
  {
    hide Unpack, CompactEncode;
    var k, e := KeyPath(key), CompactEncode(KeyPath(key));
    KeyPathLayout(key);
    CompactLayout(k);
    forall i | 0 <= i < |key| ensures e[1 + i] == key[i] {
      assert k[2 * i] == key[i] / 16 && k[2 * i + 1] == key[i] % 16;
    }
  }
}
