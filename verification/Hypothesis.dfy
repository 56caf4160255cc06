/**
 * What the trie's claims assume of the hash function, and that it can be met: no collision among the strings that
 * a run stores, for keys of any length and hashes of 32 bytes.
 */
module Hypothesis {
  import opened Bytes
  import opened HexPrefix
  import opened Rlp
  import opened Options
  import opened Tree
  import opened Bindings
  import opened Merkle
  import opened Trie
  import opened Runs
  import opened Deletion
  import opened Storage
  import P = Paranoia
  import A = Account

  /** The encodings of a tree's nodes. */
  ghost function Encodings(e: Env, t: Tree): set<Bytes> {
    match t
    case Empty => {}
    case Val(_) => {}
    case Void => {Encode(NodeItem(e, t))}
    case Short(_, c) => {Encode(NodeItem(e, t))} + Encodings(e, c)
    case Branch(kids) =>
      {Encode(NodeItem(e, t))} + (set i, x | 0 <= i < |kids| && x in Encodings(e, kids[i]) :: x)
  }

  predicate NoZeroValue(t: Tree) {
    match t
    case Val(v) => v != [0]
    case Short(_, c) => NoZeroValue(c)
    case Branch(kids) => forall i :: 0 <= i < |kids| ==> NoZeroValue(kids[i])
    case _ => true
  }

  /** A tree fits exactly when its own nodes are listed. */
  lemma {:induction false} FitsExactly(e: Env, t: Tree)
    ensures Fits(e, t) <==> Encodings(e, t) <= e.blobs && NoZeroValue(t)
    decreases t
  {
    hide Encode, NodeItem;
    match t {
      case Short(_, c) => FitsExactly(e, c);
      case Branch(kids) =>
        forall i | 0 <= i < |kids| ensures Fits(e, kids[i]) <==> Encodings(e, kids[i]) <= e.blobs && NoZeroValue(kids[i]) {
          FitsExactly(e, kids[i]);
        }
        if Encodings(e, t) <= e.blobs {
          forall i, x | 0 <= i < |kids| && x in Encodings(e, kids[i]) ensures x in e.blobs { assert x in Encodings(e, t); }
        }
      case _ =>
    }
  }

  /** Nodes depend on the hash function alone, not on the list of strings. */
  lemma {:induction false} SameNodes(e: Env, e': Env, t: Tree)
    requires e.hash == e'.hash
    ensures NodeItem(e, t) == NodeItem(e', t) && Ref(e, t) == Ref(e', t)
    decreases t
  {
    hide Encode;
    match t {
      case Short(_, c) => SameNodes(e, e', c);
      case Branch(kids) =>
        forall i | 0 <= i < |kids| ensures Ref(e, kids[i]) == Ref(e', kids[i]) { SameNodes(e, e', kids[i]); }
        assert NodeItem(e, t).items == NodeItem(e', t).items;
      case _ =>
    }
  }

  lemma {:induction false} SameEncodings(e: Env, e': Env, t: Tree)
    requires e.hash == e'.hash
    ensures Encodings(e, t) == Encodings(e', t)
    decreases t
  {
    hide Encode, NodeItem;
    SameNodes(e, e', t);
    match t {
      case Short(_, c) => SameEncodings(e, e', c);
      case Branch(kids) =>
        forall i | 0 <= i < |kids| ensures Encodings(e, kids[i]) == Encodings(e', kids[i]) { SameEncodings(e, e', kids[i]); }
      case _ =>
    }
  }

  /** The environment that lists the nodes of some trees and nothing else. */
  ghost function Just(hash: Bytes -> Bytes, trees: seq<Tree>): Env {
    Env(hash, set i, x | 0 <= i < |trees| && x in Encodings(Env(hash, {}), trees[i]) :: x)
  }

  /** Any trees at all fit the environment that lists just their nodes. */
  lemma JustFits(hash: Bytes -> Bytes, trees: seq<Tree>, i: nat)
    requires i < |trees| && NoZeroValue(trees[i])
    ensures Fits(Just(hash, trees), trees[i])
  {
    hide Encodings, Fits, NoZeroValue;
    var e := Just(hash, trees);
    SameEncodings(Env(hash, {}), e, trees[i]);
    FitsExactly(e, trees[i]);
  }

  /** What Tame asks of it: the nodes of these trees, and no others, have different hashes. */
  lemma JustTame(hash: Bytes -> Bytes, trees: seq<Tree>)
    requires forall x :: x in Just(hash, trees).blobs ==> |x| < GO_MAX_LEN && |hash(x)| == 32
    ensures var all := Just(hash, trees).blobs;
      Tame(Just(hash, trees)) <==> forall x, y :: x in all && y in all && hash(x) == hash(y) ==> x == y
  {
    hide Encodings;
  }

  lemma JustOne(hash: Bytes -> Bytes, t: Tree)
    ensures Just(hash, [t]).blobs == Encodings(Env(hash, {}), t)
  {
    hide Encodings;
    var trees := [t];
    forall x | x in Encodings(Env(hash, {}), t) ensures x in Just(hash, trees).blobs {
      assert x in Encodings(Env(hash, {}), trees[0]);
    }
  }

  lemma LeafItem(e: Env, k: Path, v: Bytes)
    ensures NodeItem(e, Short(k, Val(v))) == List([PathText(k), Text(v)])
  {
    assert Ref(e, Val(v)) == Text(v);
  }

  /** Under any 32-byte hash whatever, a key of any length can be written to an empty trie, and deleted again. */
  lemma OneWrite(hash: Bytes -> Bytes, key: Bytes, value: Bytes)
    requires value != [0] && (forall x :: |hash(x)| == 32)
    requires |Encode(List([PathText(KeyPath(key)), Text(value)]))| < GO_MAX_LEN
    ensures var e := Just(hash, [Written(Empty, key, value)]);
      Tame(e) && RunFits(e, [Write(key, value), Drop(key)], Empty, Empty)
  {
    hide Encode, KeyPath, PathText, Tame, Just;
    var t := Written(Empty, key, value);
    assert t == Short(KeyPath(key), Val(value));
    var x := Encode(List([PathText(KeyPath(key)), Text(value)]));
    var none := Env(hash, {});
    LeafItem(none, KeyPath(key), value);
    assert Encodings(none, t) == {x};
    JustOne(hash, t);
    JustFits(hash, [t], 0);
    JustTame(hash, [t]);
    var e := Just(hash, [t]);
    assert Fits(e, t);
    LeafDropped(e, key, value);
    var acts := [Write(key, value), Drop(key)];
    assert acts[1..] == [Drop(key)] && acts[1..][1..] == [] && RunFits(e, [], Empty, Empty);
    assert RunFits(e, acts[1..], t, Empty);
  }

  /** Deleting the only key of a trie leaves the empty trie. */
  lemma LeafDropped(e: Env, key: Bytes, value: Bytes)
    requires Fits(e, Written(Empty, key, value))
    ensures var t := Written(Empty, key, value);
      Removable(e, Whole(t), KeyPath(key)) && forall t' :: Outcome(e, Whole(t), KeyPath(key), t') ==> t' == Empty
  {
    hide KeyPath;
  }

  /**
   * Two keys of 32 bytes, or of any length, that part at their first nibble: the run is in order exactly when the
   * hashes of the nodes it makes differ.
   */
  lemma TwoWrites(hash: Bytes -> Bytes, a: Bytes, v: Bytes, b: Bytes, w: Bytes)
    requires a != [] && b != [] && a[0] / 16 != b[0] / 16 && v != [0] && w != [0] && (forall x :: |hash(x)| == 32)
    requires var s, t := Written(Empty, a, v), Written(Written(Empty, a, v), b, w);
      forall x :: x in Encodings(Env(hash, {}), s) + Encodings(Env(hash, {}), t) ==> |x| < GO_MAX_LEN
    ensures var s, t := Written(Empty, a, v), Written(Written(Empty, a, v), b, w);
      var e, all := Just(hash, [s, t]), Encodings(Env(hash, {}), s) + Encodings(Env(hash, {}), t);
      && RunFits(e, [Write(a, v), Write(b, w)], Empty, Empty)
      && (Tame(e) <==> forall x, y :: x in all && y in all && hash(x) == hash(y) ==> x == y)
  {
    hide Encode, Encodings, Fits, NodeItem, Written, KeyPath, NoZeroValue, Tame;
    var s, t := Written(Empty, a, v), Written(Written(Empty, a, v), b, w);
    var trees := [s, t];
    PartedNoZero(a, v, b, w);
    JustFits(hash, trees, 0);
    JustFits(hash, trees, 1);
    assert Just(hash, trees).blobs == Encodings(Env(hash, {}), s) + Encodings(Env(hash, {}), t);
    JustTame(hash, trees);
    var e, acts := Just(hash, trees), [Write(a, v), Write(b, w)];
    assert acts[1..] == [Write(b, w)] && acts[1..][1..] == [];
    assert RunFits(e, [], t, Empty) && RunFits(e, acts[1..], s, Empty);
  }

  lemma PartedNoZero(a: Bytes, v: Bytes, b: Bytes, w: Bytes)
    requires a != [] && b != [] && a[0] / 16 != b[0] / 16 && v != [0] && w != [0]
    ensures var s := Written(Empty, a, v); NoZeroValue(s) && NoZeroValue(Written(s, b, w))
  {
    var p, q := KeyPath(a), KeyPath(b);
    assert p[0] == a[0] / 16 && q[0] == b[0] / 16;
    PathsNoZero(p, v, q, w);
  }

  lemma PathsNoZero(p: Path, v: Bytes, q: Path, w: Bytes)
    requires p != [] && q != [] && p[0] != q[0] && v != [0] && w != [0]
    ensures var s := Insert(Empty, p, Val(v)); NoZeroValue(s) && NoZeroValue(Insert(s, q, Val(w)))
  {
    var s := Short(p, Val(v));
    assert Match(q, p) == 0;
    assert Insert(s, q, Val(w)) == Place(q[..0], Fork(p, Val(v), q, Val(w), 0));
  }

  // ------------------------------------------------------------ one account

  lemma LeafRebuilds(e: Env, key: Bytes, v: Bytes)
    requires v != [] && Fits(e, Written(Empty, key, v))
    ensures var t := Written(Empty, key, v); Solid(t) && Canonical(t) && P.Rebuildable(e, t)
  {
    hide Fits, KeyPath, Build, Calls, EntriesOf, Insert;
    LeafCalls(key, v);
    LeafBuilt(key, v);
    LeafSolid(key, v);
    var t, calls := Written(Empty, key, v), [(key, v)];
    forall i | 0 <= i <= |calls| ensures Fits(e, Build(calls[..i])) {
      if i == 0 {
        assert calls[..i] == [];
        EmptyFits(e);
      } else {
        assert calls[..i] == calls;
      }
    }
  }

  lemma EmptyFits(e: Env)
    ensures Fits(e, Empty)
  {
  }

  lemma LeafSolid(key: Bytes, v: Bytes)
    requires v != []
    ensures var t := Written(Empty, key, v); Solid(t) && Canonical(t)
  {
    hide KeyPath;
    assert Written(Empty, key, v) == Short(KeyPath(key), Val(v));
  }

  lemma LeafCalls(key: Bytes, v: Bytes)
    ensures Calls(EntriesOf(Written(Empty, key, v), [])) == [(key, v)]
  {
    var p := KeyPath(key);
    assert Written(Empty, key, v) == Short(p, Val(v));
    assert [] + p == p && EntriesOf(Val(v), p) == [(p, v)];
    assert EntriesOf(Short(p, Val(v)), []) == EntriesOf(Val(v), [] + p);
    KeyOfKeyPath(key);
    assert Body(p) == p[..|p| - 1];
  }

  lemma LeafBuilt(key: Bytes, v: Bytes)
    ensures Build([]) == Empty && Build([(key, v)]) == Written(Empty, key, v)
  {
    hide KeyPath, Insert;
    assert [(key, v)][..0] == [];
  }

  /** The tree of a storage with one cell. */
  function OneCell(k: Bytes, v: nat): Tree {
    Written(Empty, k, CellBytes(v))
  }

  lemma OneWalk(e: Env, k: Bytes, v: nat, order: seq<Bytes>, trees: seq<Tree>)
    requires v > 0 && A.Walk(e, Empty, map[k := v], order, trees)
    ensures (order == [] && trees[|order|] == Empty) || (order == [k] && trees[|order|] == OneCell(k, v))
  {
    hide Written, CellBytes;
    TwoDiffer(order);
    TwoSame(order, k);
    if |order| == 1 { assert order == [k] && CellStep(e, trees[0], order[0], v, trees[1]); }
  }

  lemma TwoDiffer(order: seq<Bytes>)
    requires forall i, j :: 0 <= i < j < |order| ==> order[i] != order[j]
    ensures |order| > 1 ==> order[0] != order[1]
  {
  }

  lemma TwoSame(order: seq<Bytes>, k: Bytes)
    requires forall i :: 0 <= i < |order| ==> order[i] == k
    ensures |order| > 1 ==> order[0] == order[1]
  {
  }

  lemma OneStore(e: Env, k: Bytes, v: nat)
    requires v > 0 && |k| == 32 && Encodable(v) && Fits(e, OneCell(k, v))
    ensures StoreOk(Empty) && A.StoreFits(e, Empty, map[k := v])
    ensures forall s :: A.Flushed(e, Empty, map[k := v], s) ==> s == OneCell(k, v)
  {
    hide A.Walk, A.Covers, P.Rebuildable, Fits, Solid, Canonical, Written, CellBytes, Encodable;
    var cells := map[k := v];
    CellBack(v);
    LeafRebuilds(e, k, CellBytes(v));
    forall order, trees | A.Walk(e, Empty, cells, order, trees)
      ensures |trees| == |order| + 1
      ensures forall key :: key in cells && key !in order ==> A.CellFits(e, trees[|order|], key, cells[key])
      ensures A.Covers(cells, order) ==> trees[|order|] == OneCell(k, v)
    {
      WalkShape(e, cells, order, trees);
      OneWalk(e, k, v, order, trees);
      CoversOne(k, v, order);
    }
  }

  lemma WalkShape(e: Env, cells: map<Bytes, nat>, order: seq<Bytes>, trees: seq<Tree>)
    requires A.Walk(e, Empty, cells, order, trees)
    ensures |trees| == |order| + 1
  {
  }

  lemma CoversOne(k: Bytes, v: nat, order: seq<Bytes>)
    ensures A.Covers(map[k := v], order) ==> k in order
  {
  }

  /**
   * Writing back a new account with one cell is in order under any 32-byte hash that does not collide on its code, the
   * node of its storage and the node of its record.
   */
  lemma OneAccount(hash: Bytes -> Bytes, x: A.Cached, k: Bytes, v: nat)
    requires (forall y :: |hash(y)| == 32) && |x.addr| == 20 && !x.remove
    requires x.cells == map[k := v] && |k| == 32 && v > 0 && Encodable(v)
    requires var none := Env(hash, {});
      var record := A.RecordOf(none, x, OneCell(k, v));
      |record| < GO_MAX_LEN
      && forall y :: y in {x.code} + Encodings(none, OneCell(k, v)) + Encodings(none, Written(Empty, x.addr, record)) ==> |y| < GO_MAX_LEN
    ensures var none := Env(hash, {});
      var all := {x.code} + Encodings(none, OneCell(k, v)) + Encodings(none, Written(Empty, x.addr, A.RecordOf(none, x, OneCell(k, v))));
      var e := Env(hash, all);
      && A.Flushable(e, x, Empty) && A.PlanFits(e, Empty, [x], [Empty])
      && (Tame(e) <==> forall y, z :: y in all && z in all && hash(y) == hash(z) ==> y == z)
  {
    hide Encodings, Written, Encode, CellBytes, Encodable, A.Flushed, Solid, P.Rebuildable, A.StoreFits, StoreOk, Fits;
    var none, s := Env(hash, {}), OneCell(k, v);
    var record := A.RecordOf(none, x, s);
    var t := Written(Empty, x.addr, record);
    var e := Env(hash, {x.code} + Encodings(none, s) + Encodings(none, t));
    SameNodes(none, e, s);
    assert A.RecordOf(e, x, s) == record;
    NumberLeaf(v);
    LongRecord(none, x, s);
    Listing(none, e, s, k, CellBytes(v));
    Listing(none, e, t, x.addr, record);
    OneStore(e, k, v);
    LeafRebuilds(e, x.addr, record);
    assert [x][1..] == [] && [Empty][1..] == [];
    assert A.PlanFits(e, t, [], []);
  }

  lemma NumberLeaf(v: nat)
    requires v > 0 && Encodable(v)
    ensures CellBytes(v) != [] && CellBytes(v) != [0]
  {
    CellBack(v);
  }

  lemma LongRecord(e: Env, x: A.Cached, s: Tree)
    requires forall y :: |e.hash(y)| == 32
    ensures |A.RecordOf(e, x, s)| >= 32
  {
    hide Encode;
    var r := A.Record(x.nonce, x.balance, RootItem(e, s), e.hash(x.code));
    ItemInList(r.items, 3);
    A.LongRaw(e.hash(x.code));
    A.ListLonger(r.items);
  }

  lemma Listing(none: Env, e: Env, t: Tree, key: Bytes, v: Bytes)
    requires none.hash == e.hash && t == Written(Empty, key, v) && v != [0] && Encodings(none, t) <= e.blobs
    ensures Fits(e, t)
  {
    hide Encodings, Fits, KeyPath;
    SameEncodings(none, e, t);
    FitsExactly(e, t);
  }
}
