/** Tries as maps from byte strings to byte strings: runs of updates, iteration, and rebuilding. */
module Bindings {
  import opened Bytes
  import opened HexPrefix
  import opened Options
  import opened Tree

  type Binds = map<Bytes, Bytes>

  /** The key a path of whole bytes stands for. */
  function KeyOf(q: Path): Bytes
    requires q != []
  {
    Pack(q[..|q| - 1])
  }

  /** What a map of byte strings binds a full path to: paths with half a byte are never bound. */
  function At(m: Binds, q: Path): Option<Bytes> {
    if q != [] && |q| % 2 == 1 && KeyOf(q) in m then Some(m[KeyOf(q)]) else None
  }

  /** The tree binds exactly what the map binds. */
  ghost predicate Represents(t: Tree, m: Binds) {
    forall q :: Full(q) ==> Lookup(t, q) == At(m, q)
  }

  lemma KeyOfKeyPath(key: Bytes)
    ensures KeyOf(KeyPath(key)) == key && |KeyPath(key)| % 2 == 1
  {
    var k := KeyPath(key);
    assert k[..|k| - 1] == Unpack(key);
    PackUnpack(key);
  }

  lemma KeyPathKeyOf(q: Path)
    requires Full(q) && |q| % 2 == 1
    ensures KeyPath(KeyOf(q)) == q
  {
    UnpackPack(q[..|q| - 1]);
    assert q == q[..|q| - 1] + [TERM];
  }

  lemma AtUpdate(m: Binds, key: Bytes, v: Bytes, q: Path)
    requires Full(q)
    ensures At(m[key := v], q) == if q == KeyPath(key) then Some(v) else At(m, q)
    ensures At(m - {key}, q) == if q == KeyPath(key) then None else At(m, q)
  {
    KeyOfKeyPath(key);
    if |q| % 2 == 1 { KeyPathKeyOf(q); }
  }

  lemma RepresentsUpdate(t: Tree, m: Binds, key: Bytes, v: Bytes)
    requires Node(t) && Represents(t, m)
    ensures Represents(Insert(t, KeyPath(key), Val(v)), m[key := v])
  {
    forall q | Full(q)
      ensures Lookup(Insert(t, KeyPath(key), Val(v)), q) == At(m[key := v], q)
    {
      LookupInsert(t, KeyPath(key), v, q);
      AtUpdate(m, key, v, q);
    }
  }

  /** At most one canonical tree represents a map. */
  lemma RepresentsUnique(a: Tree, b: Tree, m: Binds)
    requires Canonical(a) && Canonical(b) && !a.Val? && !b.Val? && Represents(a, m) && Represents(b, m)
    ensures a == b
  {
    forall q | Full(q) ensures Lookup(a, q) == Lookup(b, q) {}
    CanonicalUnique(a, b);
  }

  // ------------------------------------------------------------ runs of updates

  type Updates = seq<(Bytes, Bytes)>

  /** Apply updates in order to an empty trie. */
  function Build(us: Updates): Tree {
    if us == [] then Empty
    else
      var u := us[|us| - 1];
      Insert(Build(us[..|us| - 1]), KeyPath(u.0), Val(u.1))
  }

  /** What the updates leave bound. */
  function Final(us: Updates): Binds {
    if us == [] then map[]
    else
      var u := us[|us| - 1];
      Final(us[..|us| - 1])[u.0 := u.1]
  }

  lemma {:induction false} BuildRepresents(us: Updates)
    ensures Canonical(Build(us)) && !Build(us).Val? && Node(Build(us)) && Represents(Build(us), Final(us))
  {
    if us != [] {
      var u, rest := us[|us| - 1], us[..|us| - 1];
      BuildRepresents(rest);
      InsertCanonical(Build(rest), KeyPath(u.0), u.1);
      RepresentsUpdate(Build(rest), Final(rest), u.0, u.1);
      CanonicalIsNode(Build(us));
    }
  }

  /** The order of updates and the values they overwrite leave no trace in the trie. */
  lemma BuildOrderFree(us: Updates, ws: Updates)
    requires Final(us) == Final(ws)
    ensures Build(us) == Build(ws)
  {
    BuildRepresents(us);
    BuildRepresents(ws);
    RepresentsUnique(Build(us), Build(ws), Final(us));
  }

  // ------------------------------------------------------------------ iteration

  /** Trees in which every two-item node over a value binds a non-empty one. */
  predicate Solid(t: Tree) {
    match t
    case Empty => true
    case Void => true
    case Val(v) => v != []
    case Short(k, c) => k != [] && ((Full(k) && c.Val? && c.v != []) || (Partial(k) && !c.Val? && Solid(c)))
    case Branch(kids) =>
      && |kids| == 17
      && (forall i :: 0 <= i < 17 ==> Solid(kids[i]) && (kids[i].Val? ==> i == 16))
      && (kids[16].Val? || kids[16].Empty?)
  }

  type Entries = seq<(Path, Bytes)>

  /** The calls iterateNode makes below a node reached along `pre`, in order. */
  function EntriesOf(t: Tree, pre: Path): Entries
    decreases t, 18
  {
    match t
    case Empty => []
    case Void => []
    case Val(v) => [(pre, v)]
    case Short(k, c) => EntriesOf(c, pre + k)
    case Branch(kids) => SlotEntries(t, pre, 0)
  }

  function SlotEntries(t: Tree, pre: Path, i: nat): Entries
    requires t.Branch?
    decreases t, 17 - i
  {
    if i >= 17 || i >= |t.kids| then []
    else EntriesOf(t.kids[i], pre + [i]) + SlotEntries(t, pre, i + 1)
  }

  ghost predicate Below(e: (Path, Bytes), pre: Path, t: Tree) {
    Starts(pre, e.0) && Lookup(t, e.0[|pre|..]) == Some(e.1)
  }

  ghost predicate Distinct(es: Entries) {
    forall i, j :: 0 <= i < j < |es| ==> es[i].0 != es[j].0
  }

  lemma BelowShort(e: (Path, Bytes), pre: Path, k: Path, c: Tree)
    ensures Below(e, pre + k, c) <==> Below(e, pre, Short(k, c))
  {
    var p := e.0;
    if Starts(pre + k, p) {
      assert p[..|pre|] == p[..|pre + k|][..|pre|];
      assert p[|pre|..][..|k|] == p[..|pre + k|][|pre|..];
    }
    if Starts(pre, p) && Starts(k, p[|pre|..]) {
      assert p[..|pre + k|] == p[..|pre|] + p[|pre|..][..|k|];
      assert p[|pre|..][|k|..] == p[|pre + k|..];
    }
  }

  lemma BelowSlot(e: (Path, Bytes), pre: Path, t: Tree, i: int)
    requires t.Branch? && 0 <= i < |t.kids|
    ensures Below(e, pre + [i], t.kids[i]) <==> Below(e, pre, t) && |e.0| > |pre| && e.0[|pre|] == i
  {
    var p := e.0;
    if |p| > |pre| {
      assert p[..|pre| + 1] == p[..|pre|] + [p[|pre|]];
      assert p[|pre|..][1..] == p[|pre| + 1..];
      assert (pre + [i])[..|pre|] == pre;
    }
  }

  /** Iteration calls back exactly the bindings below a node, each once. */
  lemma {:induction false} EntriesExact(t: Tree, pre: Path)
    requires Solid(t)
    ensures forall e :: e in EntriesOf(t, pre) <==> Below(e, pre, t)
    ensures Distinct(EntriesOf(t, pre))
    decreases t, 18
  {
    match t {
      case Empty =>
      case Void =>
      case Val(v) =>
        forall e ensures e in EntriesOf(t, pre) <==> Below(e, pre, t) {
          if Below(e, pre, t) { assert e.0[|pre|..] == [] && e.0 == e.0[..|pre|]; }
        }
      case Short(k, c) =>
        EntriesExact(c, pre + k);
        forall e ensures e in EntriesOf(t, pre) <==> Below(e, pre, t) {
          BelowShort(e, pre, k, c);
        }
      case Branch(kids) =>
        SlotsExact(t, pre, 0);
        forall e ensures e in EntriesOf(t, pre) <==> Below(e, pre, t) {
          if Below(e, pre, t) { assert e.0[|pre|] == e.0[|pre|..][0]; }
        }
    }
  }

  lemma {:induction false} SlotsExact(t: Tree, pre: Path, i: nat)
    requires Solid(t) && t.Branch? && i <= 17
    ensures forall e :: e in SlotEntries(t, pre, i) <==> Below(e, pre, t) && |e.0| > |pre| && i <= e.0[|pre|] < 17
    ensures Distinct(SlotEntries(t, pre, i))
    decreases t, 17 - i
  {
    if i < 17 {
      EntriesExact(t.kids[i], pre + [i]);
      SlotsExact(t, pre, i + 1);
      forall e
        ensures e in EntriesOf(t.kids[i], pre + [i]) <==> Below(e, pre, t) && |e.0| > |pre| && e.0[|pre|] == i
      {
        BelowSlot(e, pre, t, i);
      }
      DistinctConcat(EntriesOf(t.kids[i], pre + [i]), SlotEntries(t, pre, i + 1), |pre|, i);
    }
  }

  lemma DistinctConcat(a: Entries, b: Entries, n: nat, i: int)
    requires Distinct(a) && Distinct(b)
    requires forall e :: e in a ==> |e.0| > n && e.0[n] == i
    requires forall e :: e in b ==> |e.0| > n && e.0[n] > i
    ensures Distinct(a + b)
  {
    var s := a + b;
    forall x, y | 0 <= x < y < |s|
      ensures s[x].0 != s[y].0
    {
      if x < |a| <= y {
        assert s[x] in a && s[y] in b;
      }
    }
  }

  // ----------------------------------------------------------------- rebuilding

  /** Insert entries in order into an empty trie, as ParanoiaCheck does. */
  function Rebuild(es: Entries): Tree {
    if es == [] then Empty
    else
      var e := es[|es| - 1];
      Insert(Rebuild(es[..|es| - 1]), e.0, Val(e.1))
  }

  lemma {:induction false} RebuildLookup(es: Entries, q: Path)
    requires Distinct(es) && Full(q) && forall e :: e in es ==> Full(e.0)
    ensures Canonical(Rebuild(es)) && !Rebuild(es).Val?
    ensures forall v :: Lookup(Rebuild(es), q) == Some(v) <==> (q, v) in es
  {
    if es != [] {
      var e, rest := es[|es| - 1], es[..|es| - 1];
      assert es == rest + [e];
      RebuildLookup(rest, q);
      InsertCanonical(Rebuild(rest), e.0, e.1);
      CanonicalIsNode(Rebuild(rest));
      LookupInsert(Rebuild(rest), e.0, e.1, q);
    }
  }

  /** Rebuilding from an iteration gives a canonical trie with the same bindings; a canonical trie gives itself. */
  lemma RebuildFromEntries(t: Tree)
    requires Solid(t) && !t.Val? && Node(t)
    ensures Canonical(Rebuild(EntriesOf(t, []))) && !Rebuild(EntriesOf(t, [])).Val?
    ensures SameMap(Rebuild(EntriesOf(t, [])), t)
    ensures Rebuild(EntriesOf(t, [])) == t <==> Canonical(t)
  {
    var es := EntriesOf(t, []);
    EntriesExact(t, []);
    forall e | e in es ensures Full(e.0) {
      assert Below(e, [], t) && e.0[0..] == e.0;
      BoundIsFull(t, e.0);
    }
    forall q | Full(q)
      ensures Lookup(Rebuild(es), q) == Lookup(t, q)
    {
      RebuildLookup(es, q);
      forall v ensures (q, v) in es <==> Lookup(t, q) == Some(v) {
        assert Below((q, v), [], t) <==> Lookup(t, q) == Some(v) by { assert q[0..] == q; }
      }
    }
    RebuildLookup(es, [TERM]);
    if Canonical(t) {
      CanonicalUnique(Rebuild(es), t);
    }
  }

  lemma {:induction false} BoundIsFull(t: Tree, q: Path)
    requires Node(t) && Lookup(t, q).Some?
    ensures Full(q)
    decreases t
  {
    match t {
      case Short(k, c) =>
        assert q == k + q[|k|..];
        if Partial(k) {
          BoundIsFull(c, q[|k|..]);
          UnderPath(k, q[|k|..]);
        }
      case Branch(kids) =>
        assert q == [q[0]] + q[1..];
        if q[0] < 16 {
          BoundIsFull(kids[q[0]], q[1..]);
          UnderPath([q[0]], q[1..]);
        }
    }
  }
}
