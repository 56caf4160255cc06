/**
 * An account's storage trie: how StateObject.Sync of ethstate/state_object.go writes cached cells into it, and when
 * that is right. A cell that is 0 is deleted, and a deletion can lose other cells.
 */
module Storage {
  import opened Bytes
  import opened HexPrefix
  import opened Rlp
  import opened Options
  import opened Tree
  import opened Bindings
  import opened Merkle
  import opened Deletion
  import T = Trie
  import Layout

  /** The nibbles of a 32-byte key, and the terminator. */
  const PATH := 65

  /** What SetAddr stores for a number. */
  function CellBytes(v: nat): Bytes {
    Encode(Big(v))
  }

  predicate Encodable(v: nat) {
    |CellBytes(v)| < GO_MAX_LEN
  }

  /** What GetAddr reads: 0 for nothing. */
  function CellAt(t: Tree, key: Bytes): nat {
    match Lookup(t, KeyPath(key))
    case None => 0
    case Some(b) =>
      match Load(b)
      case None => 0
      case Some(x) => Abs(BigOf(x))
  }

  lemma NoCell(key: Bytes)
    ensures CellAt(Empty, key) == 0
  {
    hide KeyPath;
  }

  lemma CellBack(v: nat)
    requires v > 0 && Encodable(v)
    ensures Load(CellBytes(v)).Some? && Abs(BigOf(Load(CellBytes(v)).value)) == v
    ensures CellBytes(v) != [] && CellBytes(v) != [0]
  {
    EncodeNonEmpty(Big(v));
    DecodeWhole(Big(v));
    NumberBack(v);
    BigBytesNotZero(v);
  }

  /** A cell is written as its number's shortest string, and a string is read as its number. */
  lemma CellLayout(v: nat)
    requires Encodable(v)
    ensures exists d :: Layout.Minimal(d, v) && Layout.StringForm(CellBytes(v), d)
  {
    hide Layout.StringForm, Layout.Minimal;
    Layout.EncodeLayout(Big(v));
  }

  lemma CellRead(t: Tree, key: Bytes, b: Bytes, s: Bytes)
    requires Lookup(t, KeyPath(key)) == Some(b) && b != [] && Decode(b, 0).Ok? && Decode(b, 0).value == Raw(s)
    ensures CellAt(t, key) == Num(s)
  {
    hide KeyPath;
  }

  /** A storage trie: keys of 32 bytes and no empty values. */
  predicate StoreOk(t: Tree) {
    Node(t) && Level(t, PATH) && NonEmpty(t)
  }

  lemma KeyLength(key: Bytes)
    requires |key| == 32
    ensures |KeyPath(key)| == PATH
  {
  }

  // --------------------------------------------------------------- one cell

  /** What writing one cell does to the trie; a deletion goes one of the ways it can. */
  ghost predicate CellStep(e: Env, t: Tree, key: Bytes, v: nat, t': Tree) {
    if v == 0 then T.Outcome(e, T.Whole(t), KeyPath(key), t') else t' == T.Written(t, key, CellBytes(v))
  }

  lemma StepOk(e: Env, t: Tree, key: Bytes, v: nat, t': Tree)
    requires StoreOk(t) && |key| == 32 && Encodable(v) && CellStep(e, t, key, v, t')
    ensures StoreOk(t')
  {
    KeyLength(key);
    T.WholeLevel(t, PATH);
    var s := T.Whole(t);
    if v == 0 {
      var picks :| Allowed(e, s, KeyPath(key), picks) && t' == RemoveBy(e, s, KeyPath(key), picks);
      RemoveByNode(e, s, KeyPath(key), picks);
    } else {
      CellBack(v);
      InsertNode(s, KeyPath(key), CellBytes(v));
      InsertKeeps(s, KeyPath(key), CellBytes(v));
    }
  }

  lemma LookupWhole(t: Tree, q: Path)
    ensures Lookup(T.Whole(t), q) == Lookup(t, q)
  {
  }

  lemma WholeNode(t: Tree)
    requires Node(t)
    ensures Node(T.Whole(t))
  {
  }

  /** A write sets one cell; a deletion clears one, and clears no other exactly if it keeps the others. */
  lemma StepReads(e: Env, t: Tree, key: Bytes, v: nat, t': Tree, k: Bytes)
    requires StoreOk(t) && Encodable(v) && CellStep(e, t, key, v, t')
    ensures k == key ==> CellAt(t', k) == v
    ensures k != key ==> CellAt(t', k) == CellAt(t, k) || (v == 0 && CellAt(t', k) == 0)
    ensures k != key && (v == 0 ==> KeepsOthers(T.Whole(t), KeyPath(key), t')) ==> CellAt(t', k) == CellAt(t, k)
  {
    hide Lookup, KeyPath, Insert, RemoveBy, Allowed, CellBytes, Load, Level, NonEmpty, T.Whole;
    var s, p, q := T.Whole(t), KeyPath(key), KeyPath(k);
    LookupWhole(t, q);
    WholeNode(t);
    if k != key && p == q { KeyPathInjective(k, key); }
    if v == 0 {
      var picks :| Allowed(e, s, p, picks) && t' == RemoveBy(e, s, p, picks);
      RemoveByLoses(e, s, p, picks, q);
    } else {
      CellBack(v);
      LookupInsert(s, p, CellBytes(v), q);
    }
  }

  // -------------------------------------------------------------- all cells

  /** Cells written one after another, in the order the map is walked. */
  ghost predicate Chain(e: Env, cells: map<Bytes, nat>, order: seq<Bytes>, trees: seq<Tree>) {
    |trees| == |order| + 1
    && forall i :: 0 <= i < |order| ==> order[i] in cells && CellStep(e, trees[i], order[i], cells[order[i]], trees[i + 1])
  }

  lemma ChainMore(e: Env, cells: map<Bytes, nat>, order: seq<Bytes>, trees: seq<Tree>, key: Bytes, next: Tree)
    requires Chain(e, cells, order, trees) && key in cells && CellStep(e, trees[|order|], key, cells[key], next)
    ensures Chain(e, cells, order + [key], trees + [next])
  {
    hide CellStep;
  }

  predicate CellsOk(cells: map<Bytes, nat>) {
    forall k :: k in cells ==> |k| == 32 && Encodable(cells[k])
  }

  /** What a cell should read after the keys of an order have been written. */
  function Want(cells: map<Bytes, nat>, order: seq<Bytes>, t: Tree, k: Bytes): nat {
    if k in order && k in cells then cells[k] else CellAt(t, k)
  }

  /** Every deletion on the way keeps the other cells. */
  ghost predicate AllKeep(cells: map<Bytes, nat>, order: seq<Bytes>, trees: seq<Tree>)
    requires |trees| == |order| + 1
  {
    forall i :: 0 <= i < |order| && order[i] in cells && cells[order[i]] == 0 ==>
      KeepsOthers(T.Whole(trees[i]), KeyPath(order[i]), trees[i + 1])
  }

  lemma {:induction false} ChainOk(e: Env, cells: map<Bytes, nat>, order: seq<Bytes>, trees: seq<Tree>, n: nat)
    requires Chain(e, cells, order, trees) && CellsOk(cells) && StoreOk(trees[0]) && n <= |order|
    ensures StoreOk(trees[n])
  {
    if n > 0 {
      ChainOk(e, cells, order, trees, n - 1);
      StepOk(e, trees[n - 1], order[n - 1], cells[order[n - 1]], trees[n]);
    }
  }

  /** Nothing is invented: a cell reads as it should, or as 0; and it reads as it should if every deletion keeps the others. */
  lemma {:induction false} ChainReads(e: Env, cells: map<Bytes, nat>, order: seq<Bytes>, trees: seq<Tree>, n: nat, k: Bytes)
    requires Chain(e, cells, order, trees) && CellsOk(cells) && StoreOk(trees[0]) && n <= |order|
    ensures CellAt(trees[n], k) == Want(cells, order[..n], trees[0], k) || CellAt(trees[n], k) == 0
    ensures AllKeep(cells, order, trees) ==> CellAt(trees[n], k) == Want(cells, order[..n], trees[0], k)
  {
    hide CellStep, StoreOk, KeepsOthers, CellAt, Encodable;
    if n > 0 {
      var key := order[n - 1];
      ChainReads(e, cells, order, trees, n - 1, k);
      ChainOk(e, cells, order, trees, n - 1);
      StepReads(e, trees[n - 1], key, cells[key], trees[n], k);
      assert order[..n] == order[..n - 1] + [key];
    }
  }

  /** What is bound reads as a number other than 0. */
  ghost predicate Cellular(t: Tree) {
    forall q, b :: Lookup(t, q) == Some(b) ==> exists v :: v > 0 && Encodable(v) && b == CellBytes(v)
  }

  lemma {:induction false} LevelLookup(t: Tree, n: nat, q: Path)
    requires Level(t, n) && Lookup(t, q).Some?
    ensures |q| == n
    decreases t
  {
    match t {
      case Val(_) =>
      case Short(k, c) => LevelLookup(c, n - |k|, q[|k|..]);
      case Branch(kids) => LevelLookup(kids[q[0]], n - 1, q[1..]);
    }
  }

  /**
   * The exact condition for one cell set to 0 in a canonical trie in memory: the other cells read as before if and
   * only if no collapse on the way to the cell meets an inline child.
   */
  lemma ZeroCellExactly(e: Env, t: Tree, z: Bytes, t': Tree)
    requires StoreOk(t) && Canonical(t) && Cellular(t) && t' == RemoveAs(e, t, KeyPath(z))
    requires T.Outcome(e, t, KeyPath(z), t')
    ensures (forall k :: k != z ==> CellAt(t', k) == CellAt(t, k)) <==> CollapseKeeps(e, t, KeyPath(z))
  {
    hide Lookup, KeyPath, RemoveAs, CollapseKeeps, Canonical, CellBytes, Load, Level, NonEmpty, Node, T.Outcome, Full;
    NotVal(t);
    DeleteKeepsExactly(e, t, KeyPath(z));
    if CollapseKeeps(e, t, KeyPath(z)) {
      forall k | k != z ensures CellAt(t', k) == CellAt(t, k) {
        if KeyPath(k) == KeyPath(z) { KeyPathInjective(k, z); }
      }
    } else {
      var q := LostKey(e, t, KeyPath(z));
      LevelLookup(t, PATH, q);
      assert q != [] && |q| % 2 == 1;
      KeyPathKeyOf(q);
      var k := KeyOf(q);
      var v :| v > 0 && Encodable(v) && Lookup(t, q) == Some(CellBytes(v));
      CellBack(v);
      assert CellAt(t, k) == v && CellAt(t', k) == 0 && k != z;
    }
  }

  lemma NotVal(t: Tree)
    requires Node(t)
    ensures !t.Val?
  {
  }

  /** Canonical, with keys of 32 bytes, and cells as they are written. */
  ghost predicate Proper(t: Tree) {
    StoreOk(t) && Canonical(t) && Cellular(t)
  }

  lemma EmptyProper()
    ensures Proper(Empty)
  {
  }

  lemma ProperCell(t: Tree, q: Path)
    requires Proper(t) && Lookup(t, q).Some?
    ensures q == KeyPath(KeyOf(q)) && CellAt(t, KeyOf(q)) > 0 && Lookup(t, q) == Some(CellBytes(CellAt(t, KeyOf(q))))
  {
    hide KeyPath, CellBytes, Load, Level, NonEmpty, Node, Canonical, Full;
    LevelLookup(t, PATH, q);
    BoundIsFull(t, q);
    KeyPathKeyOf(q);
    var v :| v > 0 && Encodable(v) && Lookup(t, q) == Some(CellBytes(v));
    CellBack(v);
  }

  /** There is one such trie for what the cells read. */
  lemma ProperUnique(s: Tree, t: Tree)
    requires Proper(s) && Proper(t) && forall k :: CellAt(s, k) == CellAt(t, k)
    ensures s == t
  {
    hide CellAt, Lookup, KeyPath, CellBytes, Level, NonEmpty, Canonical, Cellular;
    forall q | Full(q) ensures Lookup(s, q) == Lookup(t, q) { SameBinding(s, t, q); }
    NotVal(s);
    NotVal(t);
    CanonicalUnique(s, t);
  }

  lemma SameBinding(s: Tree, t: Tree, q: Path)
    requires Proper(s) && Proper(t) && Full(q) && forall k :: CellAt(s, k) == CellAt(t, k)
    ensures Lookup(s, q) == Lookup(t, q)
  {
    hide Proper, KeyPath, CellBytes, KeyOf;
    if Lookup(s, q).Some? {
      ProperCell(s, q);
      Unbound(t, q);
      if Lookup(t, q).Some? { ProperCell(t, q); }
    } else if Lookup(t, q).Some? {
      ProperCell(t, q);
      Unbound(s, q);
    }
  }

  lemma Unbound(t: Tree, q: Path)
    requires q != [] && q == KeyPath(KeyOf(q))
    ensures Lookup(t, q) == None ==> CellAt(t, KeyOf(q)) == 0
  {
    hide KeyPath, KeyOf;
  }

  /** A cell other than 0 keeps a trie proper. */
  lemma ProperStep(e: Env, t: Tree, key: Bytes, v: nat, t': Tree)
    requires Proper(t) && |key| == 32 && Encodable(v) && v > 0 && CellStep(e, t, key, v, t')
    ensures Proper(t')
  {
    hide Lookup, KeyPath, Insert, CellBytes, Level, NonEmpty, Canonical, Node, Encodable;
    StepOk(e, t, key, v, t');
    CanonicalSame(t);
    NotVal(t);
    InsertCanonical(t, KeyPath(key), CellBytes(v));
    forall q, b | Lookup(t', q) == Some(b) ensures exists u :: u > 0 && Encodable(u) && b == CellBytes(u) {
      BoundIsFull(t', q);
      LookupInsert(t, KeyPath(key), CellBytes(v), q);
    }
  }

  lemma CanonicalSame(t: Tree)
    requires Canonical(t)
    ensures T.Whole(t) == t
  {
  }

  lemma {:induction false} ProperChain(e: Env, cells: map<Bytes, nat>, order: seq<Bytes>, trees: seq<Tree>, n: nat)
    requires Chain(e, cells, order, trees) && CellsOk(cells) && Proper(trees[0]) && n <= |order|
    requires forall k :: k in cells ==> cells[k] != 0
    ensures Proper(trees[n])
  {
    hide Proper, CellStep, Encodable;
    if n > 0 {
      ProperChain(e, cells, order, trees, n - 1);
      ProperStep(e, trees[n - 1], order[n - 1], cells[order[n - 1]], trees[n]);
    }
  }

  // ---------------------------------------------------------- ParanoiaCheck

  /** The trie after ParanoiaCheck: itself if canonical, otherwise rebuilt from an iteration. */
  function Checked(t: Tree): Tree {
    if Solid(t) && !Canonical(t) then Rebuild(EntriesOf(t, [])) else t
  }

  lemma CheckedReads(t: Tree)
    requires StoreOk(t)
    ensures StoreOk(Checked(t)) && SameMap(Checked(t), t)
    ensures forall k :: CellAt(Checked(t), k) == CellAt(t, k)
  {
    if Solid(t) && !Canonical(t) {
      RebuildFromEntries(t);
      CanonicalIsNode(Checked(t));
      var es := EntriesOf(t, []);
      EntriesExact(t, []);
      forall e | e in es ensures |e.0| == PATH && e.1 != [] {
        assert Below(e, [], t) && e.0[0..] == e.0;
        LevelLookup(t, PATH, e.0);
        NonEmptyLookup(t, e.0);
      }
      RebuildLevel(es);
    }
  }

  lemma CheckedProper(t: Tree)
    requires Proper(t)
    ensures Checked(t) == t
  {
  }

  lemma {:induction false} NonEmptyLookup(t: Tree, q: Path)
    requires NonEmpty(t) && Lookup(t, q).Some?
    ensures Lookup(t, q).value != []
    decreases t
  {
    match t {
      case Val(_) =>
      case Short(k, c) => NonEmptyLookup(c, q[|k|..]);
      case Branch(kids) => NonEmptyLookup(kids[q[0]], q[1..]);
    }
  }

  lemma {:induction false} RebuildLevel(es: Entries)
    requires forall e :: e in es ==> |e.0| == PATH && e.1 != []
    ensures Level(Rebuild(es), PATH) && NonEmpty(Rebuild(es))
  {
    if es != [] {
      var e, rest := es[|es| - 1], es[..|es| - 1];
      assert es == rest + [e] && e in es;
      RebuildLevel(rest);
      InsertKeeps(Rebuild(rest), e.0, e.1);
    }
  }

  // ------------------------------------------------- a storage that loses cells

  function Key(a: byte, b: byte): Bytes {
    Zeros(30) + [a, b]
  }

  /** The tree of the cells 0x00..1234 and 0x00..1235, below their common part. */
  function PairFork(): Tree {
    Branch(Blank()[4 := Short([16], Val([1]))][5 := Short([16], Val([1]))])
  }

  function ThreeFork(): Tree {
    Branch(Blank()[0 := Short([0, 0, 0, 16], Val([1]))][1 := Short([2, 3], PairFork())])
  }

  /** The cells 0x00..0000, 0x00..1234 and 0x00..1235, each holding 1. */
  function ThreeCells(): Tree {
    Short(seq(60, _ => 0), ThreeFork())
  }

  lemma {:induction false} UnpackConcat(a: Bytes, b: Bytes)
    ensures Unpack(a + b) == Unpack(a) + Unpack(b)
  {
    if a == [] {
      assert a + b == b;
    } else {
      UnpackConcat(a[1..], b);
      assert (a + b)[1..] == a[1..] + b;
      var h := [a[0] / 16, a[0] % 16];
      assert Unpack(a) == h + Unpack(a[1..]) && Unpack(a + b) == h + Unpack(a[1..] + b);
    }
  }

  lemma {:induction false} UnpackZeros(n: nat)
    ensures Unpack(Zeros(n)) == seq(2 * n, _ => 0)
  {
    if n > 0 {
      assert Zeros(n)[1..] == Zeros(n - 1);
      UnpackZeros(n - 1);
    }
  }

  lemma KeyNibbles(a: byte, b: byte)
    ensures |Key(a, b)| == 32
    ensures var p := KeyPath(Key(a, b)); Starts(seq(60, _ => 0), p) && p[60..] == [a / 16, a % 16, b / 16, b % 16, 16]
  {
    UnpackConcat(Zeros(30), [a, b]);
    UnpackZeros(30);
    UnpackTwo(a, b);
    var zeros, rest := seq(60, _ => 0), [a / 16, a % 16, b / 16, b % 16];
    assert KeyPath(Key(a, b)) == zeros + (rest + [16]);
  }

  lemma UnpackTwo(a: byte, b: byte)
    ensures Unpack([a, b]) == [a / 16, a % 16, b / 16, b % 16]
  {
    assert [a, b][1..] == [b] && [b][1..] == [];
    assert Unpack([b]) == [b / 16, b % 16] + Unpack([]);
    assert Unpack([a, b]) == [a / 16, a % 16] + Unpack([b]);
  }

  lemma PairInline(e: Env)
    ensures Inline(e, PairFork())
  {
    hide EncodeAll;
    TinyLeaf(e, 1);
    TwoInBlanks(NodeItem(e, PairFork()).items);
  }

  lemma PairReads()
    ensures Lookup(PairFork(), [4, 16]) == Some([1]) && Lookup(PairFork(), [5, 16]) == Some([1])
  {
    assert [4, 16][1..] == [16] && [5, 16][1..] == [16] && [16][1..] == [];
    LookupLeaf(Val([1]), [16], [16]);
  }

  lemma ThreeReads()
    ensures Lookup(ThreeFork(), [0, 0, 0, 0, 16]) == Some([1])
    ensures Lookup(ThreeFork(), [1, 2, 3, 4, 16]) == Some([1]) && Lookup(ThreeFork(), [1, 2, 3, 5, 16]) == Some([1])
  {
    hide PairFork;
    PairReads();
    assert [0, 0, 0, 0, 16][1..] == [0, 0, 0, 16] && [0, 0, 0, 16][4..] == [];
    var p, q := [1, 2, 3, 4, 16], [1, 2, 3, 5, 16];
    assert p[1..] == [2, 3, 4, 16] && q[1..] == [2, 3, 5, 16];
    assert [2, 3, 4, 16][..2] == [2, 3] && [2, 3, 4, 16][2..] == [4, 16];
    assert [2, 3, 5, 16][..2] == [2, 3] && [2, 3, 5, 16][2..] == [5, 16];
  }

  lemma ThreeOk()
    ensures StoreOk(ThreeCells()) && Canonical(ThreeCells())
  {
    var f, g := PairFork(), ThreeFork();
    assert f.kids[4] != Empty && f.kids[5] != Empty && g.kids[0] != Empty && g.kids[1] != Empty;
    assert Canonical(f) && Canonical(g);
    CanonicalIsNode(ThreeCells());
    assert Level(f, 2) && NonEmpty(f);
    assert Level(g, 5) && NonEmpty(g);
  }

  lemma CellOne(t: Tree, key: Bytes)
    requires Lookup(t, KeyPath(key)) == Some([1])
    ensures CellAt(t, key) == 1
  {
    assert Load([1]) == Some(U8(1));
  }

  /** What the collapse leaves of the three cells: nothing. */
  lemma ThreeDeleted(e: Env)
    ensures var t, p := ThreeCells(), KeyPath(Key(0, 0));
      && Allowed(e, t, p, [1])
      && RemoveBy(e, t, p, [1]) == Short(seq(60, _ => 0) + ([1] + [2, 3]), Empty)
  {
    hide PairFork, Inline, KeyPath;
    PairInline(e);
    KeyNibbles(0, 0);
    var g, p := ThreeFork(), [0, 0, 0, 0, 16];
    assert p[1..] == [0, 0, 0, 16];
    assert RemoveBy(e, g.kids[0], p[1..], []) == Empty;
    var kids' := g.kids[0 := Empty];
    assert Alone(kids', 1);
    assert Pick([1]) == 1 && Later([1]) == [];
    assert RemoveBy(e, g, p, [1]) == CloseBranch(e, kids', 1) == Short([1] + [2, 3], Empty);
    assert Allowed(e, g, p, [1]);
  }

  /**
   * Setting the cell 0x00..0000 to 0 in the storage of the three cells, in memory: Sync deletes it, and the other
   * two cells are gone from the trie with it.
   */
  lemma SyncCanLose(e: Env) returns (t': Tree)
    ensures var t, z := ThreeCells(), Key(0, 0);
      && StoreOk(t) && CellsOk(map[z := 0]) && Chain(e, map[z := 0], [z], [t, t'])
      && CellAt(t, Key(0x12, 0x34)) == 1 && CellAt(t', Key(0x12, 0x34)) == 0
      && CellAt(t, Key(0x12, 0x35)) == 1 && CellAt(t', Key(0x12, 0x35)) == 0
  {
    hide ThreeFork, ThreeCells, KeyPath, Key, CellAt, StoreOk, Lookup, Encodable, CellStep;
    t' := ThreeStep(e);
    ThreeOk();
    ThreeReads();
    ZeroEncodes();
    KeyNibbles(0, 0);
    KeyNibbles(0x12, 0x34);
    KeyNibbles(0x12, 0x35);
    ThreeCellReads(Key(0x12, 0x34), t', [1, 2, 3, 4, 16]);
    ThreeCellReads(Key(0x12, 0x35), t', [1, 2, 3, 5, 16]);
  }

  lemma ZeroEncodes()
    ensures Encodable(0)
  {
    assert BigBytes(0) == [];
  }

  lemma ThreeCellReads(key: Bytes, t': Tree, q: Path)
    requires Starts(seq(60, _ => 0), KeyPath(key)) && KeyPath(key)[60..] == q && Lookup(ThreeFork(), q) == Some([1])
    requires t'.Short? && t'.child == Empty
    ensures CellAt(ThreeCells(), key) == 1 && CellAt(t', key) == 0
  {
    CellOne(ThreeCells(), key);
    assert Lookup(t', KeyPath(key)) == None;
  }

  lemma ThreeStep(e: Env) returns (t': Tree)
    ensures t'.Short? && t'.child == Empty && CellStep(e, ThreeCells(), Key(0, 0), 0, t')
  {
    hide ThreeFork, KeyPath, RemoveBy, Allowed, Key;
    ThreeDeleted(e);
    t' := RemoveBy(e, ThreeCells(), KeyPath(Key(0, 0)), [1]);
  }
}
