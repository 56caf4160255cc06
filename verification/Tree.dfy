/**
 * The trie of ethtrie/trie.go as a tree of values: what InsertState and getState do once
 * references are followed (Appendix D of the Ethereum Yellow Paper). Hashing, inlining and
 * the node cache are in Merkle.dfy and Trie.dfy.
 */
module Tree {
  import opened Bytes
  import opened Options
  import opened HexPrefix

  /**
   * Short is the two-item node [path, child]: a leaf when the path is full and an extension
   * when it is not. Branch is the 17-item node. Void is the empty list that deleteState
   * produces when it fails to recognise an empty slot.
   */
  datatype Tree = Empty | Void | Val(v: Bytes) | Short(path: Path, child: Tree) | Branch(kids: seq<Tree>)

  predicate Starts(k: Path, key: Path) {
    |k| <= |key| && key[..|k|] == k
  }

  /** Trees that can stand where a non-empty rest of a key is still to be matched. */
  predicate Node(t: Tree) {
    match t
    case Empty => true
    case Void => true
    case Val(_) => false
    case Short(k, c) => k != [] && ((Full(k) && (c.Val? || c.Empty?)) || (Partial(k) && Node(c)))
    case Branch(kids) =>
      && |kids| == 17
      && (forall i :: 0 <= i < 16 ==> Node(kids[i]))
      && (kids[16].Val? || kids[16].Empty?)
  }

  function Blank(): (r: seq<Tree>)
    ensures |r| == 17 && forall i :: 0 <= i < 17 ==> r[i] == Empty
  {
    seq(17, _ => Empty)
  }

  /** getState: the value bound to a key. */
  function Lookup(t: Tree, key: Path): Option<Bytes>
    decreases t
  {
    match t
    case Empty => None
    case Void => None
    case Val(v) => if key == [] then Some(v) else None
    case Short(k, c) => if Starts(k, key) then Lookup(c, key[|k|..]) else None
    case Branch(kids) => if key != [] && 0 <= key[0] < |kids| then Lookup(kids[key[0]], key[1..]) else None
  }

  /** InsertState on the empty node: no node for an empty path, a two-item node otherwise. */
  function Place(k: Path, c: Tree): Tree {
    if k == [] then c else Short(k, c)
  }

  /** Put a subtree into a slot of a 17-item node. */
  function Put(kids: seq<Tree>, i: int, t: Tree): (r: seq<Tree>)
    ensures |r| == |kids|
  {
    if 0 <= i < |kids| then kids[i := t] else kids
  }

  /** The 17-item node into which a two-item node is expanded where two paths part. */
  function Fork(k: Path, c: Tree, key: Path, sub: Tree, m: nat): Tree
    requires m < |k| && m < |key|
  {
    Branch(Put(Put(Blank(), k[m], Place(k[m + 1..], c)), key[m], Place(key[m + 1..], sub)))
  }

  /** InsertState. */
  function Insert(t: Tree, key: Path, sub: Tree): Tree
    decreases t
  {
    if key == [] then sub
    else
      match t
      case Empty => Short(key, sub)
      case Void => Short(key, sub)
      case Val(_) => t
      case Short(k, c) =>
        if k == key then Short(key, sub)
        else
          var m := Match(key, k);
          if m == |k| then Place(key[..m], Insert(c, key[m..], sub))
          else if m < |key| then Place(key[..m], Fork(k, c, key, sub, m))
          else t
      case Branch(kids) =>
        if 0 <= key[0] < |kids| then Branch(kids[key[0] := Insert(kids[key[0]], key[1..], sub)]) else t
  }

  lemma SuffixFull(key: Path, m: nat)
    requires Full(key) && m < |key|
    ensures Full(key[m..]) && Partial(key[..m]) && 0 <= key[m] <= 16
    ensures key[m] == TERM <==> m == |key| - 1
  {
    var b := key[..|key| - 1];
    assert forall i :: 0 <= i < |b| ==> b[i] == key[i];
    assert key[m..][..|key| - m - 1] == b[m..];
    assert m < |key| - 1 ==> key[m] == b[m];
  }

  lemma NibbleAt(k: Path, m: nat)
    requires PathOk(k) && m < |k|
    ensures 0 <= k[m] < 17
  {
    if Full(k) { SuffixFull(k, m); }
  }

  /** A stored path and a different full key part before the key ends. */
  lemma InsertSplits(k: Path, key: Path)
    requires PathOk(k) && k != [] && Full(key) && k != key
    ensures Match(key, k) < |key|
    ensures Match(key, k) == |k| ==> Partial(k) && Starts(k, key)
    ensures var m := Match(key, k); Full(key[m..]) && Partial(key[..m])
    ensures var m := Match(key, k); m < |k| ==> 0 <= k[m] < 17 && 0 <= key[m] < 17 && k[m] != key[m]
  {
    var m := Match(key, k);
    if m == |key| {
      FullNotPrefix(key, k);
    } else {
      SuffixFull(key, m);
      if m < |k| {
        NibbleAt(k, m);
      } else if Full(k) {
        FullNotPrefix(k, key);
      }
    }
  }

  // ------------------------------------------------------- the map it stands for

  lemma {:induction false} LookupPlace(k: Path, c: Tree, key: Path)
    ensures Lookup(Place(k, c), key) == if Starts(k, key) then Lookup(c, key[|k|..]) else None
  {
    if k == [] {
      assert key[0..] == key;
    }
  }

  lemma StartsSplit(k: Path, key: Path, m: nat)
    requires m < |k|
    ensures Starts(k, key) <==>
            Starts(k[..m], key) && m < |key| && key[m] == k[m] && Starts(k[m + 1..], key[m + 1..])
    ensures Starts(k, key) ==> key[m + 1..][|k| - m - 1..] == key[|k|..]
  {
    if Starts(k, key) {
      assert key[..m] == key[..|k|][..m] == k[..m];
      assert key[m + 1..][..|k| - m - 1] == key[..|k|][m + 1..];
    }
    if Starts(k[..m], key) && m < |key| && key[m] == k[m] && Starts(k[m + 1..], key[m + 1..]) {
      assert key[..|k|] == key[..m] + [key[m]] + key[m + 1..][..|k| - m - 1];
      assert k == k[..m] + [k[m]] + k[m + 1..];
    }
  }

  lemma LookupFork(k: Path, c: Tree, key: Path, sub: Tree, m: nat, q: Path)
    requires m < |k| && m < |key| && 0 <= k[m] < 17 && 0 <= key[m] < 17 && k[m] != key[m] && k[..m] == key[..m]
    requires |q| > m || !Starts(key[..m], q)
    ensures Lookup(Place(key[..m], Fork(k, c, key, sub, m)), q) ==
            if Starts(key, q) then Lookup(sub, q[|key|..]) else if Starts(k, q) then Lookup(c, q[|k|..]) else None
  {
    StartsSplit(k, q, m);
    StartsSplit(key, q, m);
    var f := Fork(k, c, key, sub, m);
    LookupPlace(key[..m], f, q);
    if Starts(key[..m], q) {
      var i, r := q[m], q[m + 1..];
      assert q[m..][0] == i && q[m..][1..] == r;
      LookupPlace(k[m + 1..], c, r);
      LookupPlace(key[m + 1..], sub, r);
      if 0 <= i < 17 {
        assert Lookup(f, q[m..]) == Lookup(f.kids[i], r);
      }
    }
  }

  lemma LookupLeaf(c: Tree, k: Path, q: Path)
    requires Full(k) && Full(q)
    ensures Lookup(Short(k, c), q) == if q == k then Lookup(c, []) else None
  {
    if Starts(k, q) {
      FullNotPrefix(k, q);
      assert q[|k|..] == [];
    }
  }

  lemma LookupInsertFork(k: Path, c: Tree, key: Path, v: Bytes, q: Path)
    requires k != [] && PathOk(k) && Full(key) && Full(q) && Match(key, k) < |k| && k != key
    ensures Lookup(Insert(Short(k, c), key, Val(v)), q) == if q == key then Some(v) else Lookup(Short(k, c), q)
  {
    var m := Match(key, k);
    InsertSplits(k, key);
    if |q| <= m && Starts(key[..m], q) { FullNotPrefix(q, key[..m]); }
    LookupFork(k, c, key, Val(v), m, q);
    LookupLeaf(Val(v), key, q);
  }

  lemma InsertDeep(k: Path, c: Tree, key: Path, sub: Tree)
    requires k != [] && Match(key, k) == |k| < |key|
    ensures Insert(Short(k, c), key, sub) == Short(k, Insert(c, key[|k|..], sub)) && Starts(k, key)
  {
    assert key[..|k|] == k[..|k|] == k;
  }

  lemma SameHead(a: Path, b: Path)
    requires a != [] && b != []
    ensures a == b <==> a[0] == b[0] && a[1..] == b[1..]
  {
    assert a == [a[0]] + a[1..] && b == [b[0]] + b[1..];
  }

  /** A change below a two-item node shows through it. */
  lemma LookupBelow(k: Path, c: Tree, c': Tree, key: Path, r: Option<Bytes>, q: Path)
    requires Starts(k, key)
    requires Starts(k, q) ==> Lookup(c', q[|k|..]) == if q[|k|..] == key[|k|..] then r else Lookup(c, q[|k|..])
    ensures Lookup(Short(k, c'), q) == if q == key then r else Lookup(Short(k, c), q)
  {
    assert key == k + key[|k|..];
    if Starts(k, q) {
      assert q == k + q[|k|..];
    }
  }

  /** Get after Update: the written key reads the new value and every other key what it read before. */
  lemma {:induction false} LookupInsert(t: Tree, key: Path, v: Bytes, q: Path)
    requires Node(t) && Full(key) && Full(q)
    ensures Lookup(Insert(t, key, Val(v)), q) == if q == key then Some(v) else Lookup(t, q)
    decreases t
  {
    match t {
      case Empty => LookupLeaf(Val(v), key, q);
      case Void => LookupLeaf(Val(v), key, q);
      case Short(k, c) =>
        if k == key {
          LookupLeaf(Val(v), key, q);
          LookupLeaf(c, key, q);
        } else {
          InsertSplits(k, key);
          if Match(key, k) == |k| {
            if Starts(k, q) {
              if |q| == |k| { FullNotPrefix(q, k); }
              SuffixFull(q, |k|);
              LookupInsert(c, key[|k|..], v, q[|k|..]);
            }
            InsertDeep(k, c, key, Val(v));
            LookupBelow(k, c, Insert(c, key[|k|..], Val(v)), key, Some(v), q);
          } else {
            LookupInsertFork(k, c, key, v, q);
          }
        }
      case Branch(kids) =>
        SuffixFull(q, 0);
        SuffixFull(key, 0);
        SameHead(key, q);
        if q[0] == key[0] && |key| > 1 {
          SuffixFull(key, 1);
          SuffixFull(q, 1);
          LookupInsert(kids[key[0]], key[1..], v, q[1..]);
        }
    }
  }

  lemma {:induction false} InsertNode(t: Tree, key: Path, v: Bytes)
    requires Node(t) && Full(key)
    ensures Node(Insert(t, key, Val(v)))
    decreases t
  {
    match t {
      case Empty =>
      case Void =>
      case Short(k, c) =>
        if k != key {
          var m := Match(key, k);
          InsertSplits(k, key);
          if m == |k| {
            InsertNode(c, key[m..], v);
          } else {
            ForkNode(k, c, key, Val(v), m);
          }
        }
      case Branch(kids) =>
        SuffixFull(key, 0);
        if |key| > 1 {
          SuffixFull(key, 1);
          InsertNode(kids[key[0]], key[1..], v);
        }
    }
  }

  lemma ForkNode(k: Path, c: Tree, key: Path, sub: Tree, m: nat)
    requires m < |k| && m < |key| && Node(Short(k, c)) && Node(Short(key, sub)) && Full(key)
    requires 0 <= k[m] < 17 && 0 <= key[m] < 17
    ensures Node(Fork(k, c, key, sub, m))
  {
    PlaceNode(k, c, m);
    PlaceNode(key, sub, m);
  }

  lemma PlaceNode(k: Path, c: Tree, m: nat)
    requires m < |k| && Node(Short(k, c)) && 0 <= k[m] < 17
    ensures k[m] < 16 ==> Node(Place(k[m + 1..], c))
    ensures k[m] == 16 ==> k[m + 1..] == [] && (c.Val? || c.Empty?)
  {
    if Full(k) {
      SuffixFull(k, m);
      if m + 1 < |k| { SuffixFull(k, m + 1); }
    }
  }

  // ------------------------------------------------------------ canonical form

  predicate Canonical(t: Tree) {
    match t
    case Empty => true
    case Void => false
    case Val(_) => true
    case Short(k, c) => k != [] && ((Full(k) && c.Val?) || (Partial(k) && c.Branch? && Canonical(c)))
    case Branch(kids) =>
      && |kids| == 17
      && (forall i :: 0 <= i < 17 ==> Canonical(kids[i]) && (kids[i].Val? ==> i == 16))
      && (kids[16].Val? || kids[16].Empty?)
      && exists i, j :: 0 <= i < j < 17 && kids[i] != Empty && kids[j] != Empty
  }

  lemma CanonicalIsNode(t: Tree)
    requires Canonical(t) && !t.Val?
    ensures Node(t)
  {
  }

  lemma {:induction false} InsertCanonical(t: Tree, key: Path, v: Bytes)
    requires Canonical(t) && !t.Val? && Full(key)
    ensures var r := Insert(t, key, Val(v)); Canonical(r) && (r.Short? || r.Branch?) && (t.Branch? ==> r.Branch?)
    decreases t
  {
    CanonicalIsNode(t);
    match t {
      case Empty =>
      case Short(k, c) =>
        if k != key {
          var m := Match(key, k);
          InsertSplits(k, key);
          if m == |k| {
            InsertDeep(k, c, key, Val(v));
            InsertCanonical(c, key[m..], v);
          } else {
            ForkCanonical(k, c, key, v, m);
          }
        }
      case Branch(kids) =>
        SuffixFull(key, 0);
        var i := key[0];
        if |key| > 1 {
          SuffixFull(key, 1);
          InsertCanonical(kids[i], key[1..], v);
        }
        var r := kids[i := Insert(kids[i], key[1..], Val(v))];
        var a, b :| 0 <= a < b < 17 && kids[a] != Empty && kids[b] != Empty;
        assert r[a] != Empty && r[b] != Empty;
    }
  }

  lemma ForkCanonical(k: Path, c: Tree, key: Path, v: Bytes, m: nat)
    requires Canonical(Short(k, c)) && Full(key) && m < |k| && m < |key|
    requires 0 <= k[m] < 17 && 0 <= key[m] < 17 && k[m] != key[m]
    ensures Canonical(Fork(k, c, key, Val(v), m))
  {
    PlaceCanonical(k, c, m);
    PlaceCanonical(key, Val(v), m);
    var r := Fork(k, c, key, Val(v), m).kids;
    var a, b := if k[m] < key[m] then k[m] else key[m], if k[m] < key[m] then key[m] else k[m];
    assert r[a] != Empty && r[b] != Empty;
  }

  lemma PlaceCanonical(k: Path, c: Tree, m: nat)
    requires m < |k| && Canonical(Short(k, c)) && 0 <= k[m] < 17
    ensures var p := Place(k[m + 1..], c); Canonical(p) && p != Empty && (p.Val? <==> k[m] == 16)
  {
    if Full(k) {
      SuffixFull(k, m);
      if m + 1 < |k| { SuffixFull(k, m + 1); }
    }
  }

  /** A key bound in a canonical tree that is not empty. */
  ghost function SomeKey(t: Tree): (q: Path)
    requires Canonical(t) && t != Empty
    ensures t.Val? ==> q == []
    ensures !t.Val? ==> Full(q)
    ensures Lookup(t, q).Some?
    decreases t
  {
    match t
    case Val(_) => []
    case Short(k, c) => var q := k + SomeKey(c); UnderPath(k, SomeKey(c)); q
    case Branch(kids) => var i :| 0 <= i < 17 && kids[i] != Empty; SomeKeyAt(t, i)
  }

  /** A bound key that starts with a given slot. */
  ghost function SomeKeyAt(t: Tree, i: int): (q: Path)
    requires Canonical(t) && t.Branch? && 0 <= i < 17 && t.kids[i] != Empty
    ensures Full(q) && q[0] == i && Lookup(t, q).Some?
    decreases t, 0
  {
    var r := SomeKey(t.kids[i]);
    var q := [i] + r;
    assert q[1..] == r && q[..|q| - 1] == if i == 16 then [] else [i] + r[..|r| - 1];
    q
  }

  lemma UnderPath(k: Path, r: Path)
    ensures Starts(k, k + r) && (k + r)[|k|..] == r
    ensures Partial(k) && Full(r) ==> Full(k + r)
  {
    if Partial(k) && Full(r) {
      assert (k + r)[..|k + r| - 1] == k + r[..|r| - 1];
    }
  }

  ghost predicate SameMap(a: Tree, b: Tree) {
    forall q :: Full(q) ==> Lookup(a, q) == Lookup(b, q)
  }

  lemma SamePath(a: Tree, b: Tree)
    requires Canonical(a) && Canonical(b) && a.Short? && b.Short? && SameMap(a, b)
    ensures Starts(b.path, a.path)
  {
    var k := a.path;
    if Full(k) {
      LookupLeaf(a.child, k, k);
      assert Lookup(b, k).Some?;
    } else {
      var c := a.child;
      var i, j :| 0 <= i < j < 17 && c.kids[i] != Empty && c.kids[j] != Empty;
      var p, q := SomeKeyAt(c, i), SomeKeyAt(c, j);
      UnderPath(k, p);
      UnderPath(k, q);
      assert Lookup(b, k + p).Some? && Lookup(b, k + q).Some?;
      CommonPrefix(b.path, k, p, q);
    }
  }

  lemma CommonPrefix(h: Path, k: Path, p: Path, q: Path)
    requires Starts(h, k + p) && Starts(h, k + q) && p != [] && q != [] && p[0] != q[0]
    ensures Starts(h, k)
  {
    var n := |k|;
    assert (k + p)[n] == p[0] && (k + q)[n] == q[0];
    assert (k + p)[..n] == k;
    assert |h| <= n ==> (k + p)[..|h|] == k[..|h|];
  }

  lemma ShortChildren(a: Tree, b: Tree)
    requires Canonical(a) && Canonical(b) && a.Short? && b.Short? && SameMap(a, b) && a.path == b.path
    ensures Full(a.path) ==> a.child == b.child
    ensures Partial(a.path) ==> SameMap(a.child, b.child)
  {
    var k := a.path;
    if Full(k) {
      LookupLeaf(a.child, k, k);
      LookupLeaf(b.child, k, k);
      assert Lookup(a, k) == Lookup(b, k);
    } else {
      forall q | Full(q)
        ensures Lookup(a.child, q) == Lookup(b.child, q)
      {
        UnderPath(k, q);
        assert Lookup(a, k + q) == Lookup(b, k + q);
      }
    }
  }

  lemma BranchChildren(a: Tree, b: Tree, i: int)
    requires a.Branch? && b.Branch? && SameMap(a, b) && 0 <= i < |a.kids| == |b.kids| == 17
    ensures i < 16 ==> SameMap(a.kids[i], b.kids[i])
    ensures i == 16 ==> Lookup(a.kids[i], []) == Lookup(b.kids[i], [])
  {
    if i == 16 {
      assert Full([16]) && [16][1..] == [];
      assert Lookup(a, [16]) == Lookup(b, [16]);
    } else {
      forall q | Full(q)
        ensures Lookup(a.kids[i], q) == Lookup(b.kids[i], q)
      {
        UnderPath([i], q);
        assert Lookup(a, [i] + q) == Lookup(b, [i] + q);
      }
    }
  }

  /** One tree per map: two canonical trees with the same bindings are the same tree. */
  lemma {:induction false} CanonicalUnique(a: Tree, b: Tree)
    requires Canonical(a) && Canonical(b) && !a.Val? && !b.Val? && SameMap(a, b)
    ensures a == b
    decreases a
  {
    if a == Empty || b == Empty {
      if a != Empty { var q := SomeKey(a); }
      if b != Empty { var q := SomeKey(b); }
    } else if a.Short? && b.Short? {
      SamePath(a, b);
      SamePath(b, a);
      assert a.path == b.path;
      ShortChildren(a, b);
      if a.child.Branch? {
        CanonicalUnique(a.child, b.child);
      }
    } else if a.Branch? && b.Branch? {
      forall i | 0 <= i < 17
        ensures a.kids[i] == b.kids[i]
      {
        BranchChildren(a, b, i);
        if i < 16 { CanonicalUnique(a.kids[i], b.kids[i]); }
      }
    } else if a.Branch? {
      OneHead(a, b);
    } else {
      OneHead(b, a);
    }
  }

  /** A branch binds keys that start differently; a two-item node does not. */
  lemma OneHead(a: Tree, b: Tree)
    requires Canonical(a) && Canonical(b) && a.Branch? && b.Short?
    ensures !SameMap(a, b)
  {
    var i, j :| 0 <= i < j < 17 && a.kids[i] != Empty && a.kids[j] != Empty;
    var p, q := SomeKeyAt(a, i), SomeKeyAt(a, j);
    ShortHead(b, p);
    ShortHead(b, q);
  }

  lemma ShortHead(b: Tree, q: Path)
    requires b.Short? && b.path != []
    ensures Lookup(b, q).Some? ==> q != [] && q[0] == b.path[0]
  {
    if Starts(b.path, q) {
      assert q[0] == q[..|b.path|][0];
    }
  }
}
