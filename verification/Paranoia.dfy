/** ParanoiaCheck of ethtrie/trie.go, which State.Update runs after every flush. */
module Paranoia {
  import opened Bytes
  import opened HexPrefix
  import opened Rlp
  import opened Options
  import opened Tree
  import opened Bindings
  import opened Merkle
  import opened Commitment
  import opened Trie

  lemma {:induction false} FinalMember(us: Updates, key: Bytes, v: Bytes)
    requires forall i, j :: 0 <= i < j < |us| ==> us[i].0 != us[j].0
    ensures key in Final(us) && Final(us)[key] == v <==> (key, v) in us
  {
    if us != [] {
      var u, rest := us[|us| - 1], us[..|us| - 1];
      assert us == rest + [u];
      FinalMember(rest, key, v);
    }
  }

  /** Distinct calls that are exactly the bindings of m leave m bound. */
  lemma FinalIs(us: Updates, m: Binds)
    requires forall i, j :: 0 <= i < j < |us| ==> us[i].0 != us[j].0
    requires forall key, v :: (key, v) in us <==> key in m && m[key] == v
    ensures Final(us) == m
  {
    forall key ensures key in Final(us) <==> key in m {
      if key in m { FinalMember(us, key, m[key]); }
      if key in Final(us) { FinalMember(us, key, Final(us)[key]); }
    }
    forall key | key in m ensures Final(us)[key] == m[key] { FinalMember(us, key, m[key]); }
  }

  lemma {:induction false} BoundFits(e: Env, t: Tree, q: Path)
    requires Fits(e, t) && Lookup(t, q).Some?
    ensures Lookup(t, q).value != [0]
    decreases t
  {
    match t {
      case Val(_) =>
      case Short(k, c) => BoundFits(e, c, q[|k|..]);
      case Branch(kids) => BoundFits(e, kids[q[0]], q[1..]);
    }
  }

  lemma BindingFits(e: Env, t: Tree, m: Binds, key: Bytes)
    requires Fits(e, t) && Represents(t, m) && key in m
    ensures m[key] != [0]
  {
    KeyOfKeyPath(key);
    BoundFits(e, t, KeyPath(key));
  }

  lemma {:induction false} SolidIf(t: Tree)
    requires Canonical(t) && forall q :: Lookup(t, q) != Some([])
    ensures Solid(t)
    decreases t
  {
    match t {
      case Empty =>
      case Val(v) => assert Lookup(t, []) == Some(v);
      case Short(k, c) =>
        forall q ensures Lookup(c, q) != Some([]) {
          UnderPath(k, q);
          assert Lookup(t, k + q) == Lookup(c, q);
        }
        SolidIf(c);
        if c.Val? { assert Lookup(c, []) == Some(c.v); }
      case Branch(kids) =>
        forall i | 0 <= i < 17 ensures Solid(kids[i]) {
          forall q ensures Lookup(kids[i], q) != Some([]) {
            UnderPath([i], q);
            assert Lookup(t, [i] + q) == Lookup(kids[i], q);
          }
          SolidIf(kids[i]);
        }
    }
  }

  lemma {:induction false} SolidBinds(t: Tree, q: Path)
    requires Solid(t)
    ensures Lookup(t, q) != Some([])
    decreases t
  {
    match t {
      case Short(k, c) => if Starts(k, q) { SolidBinds(c, q[|k|..]); }
      case Branch(kids) => if q != [] && 0 <= q[0] < 17 { SolidBinds(kids[q[0]], q[1..]); }
      case _ =>
    }
  }

  /** A canonical trie with the bindings of a trie without empty values has none either. */
  lemma SolidCopy(s: Tree, t: Tree, m: Binds)
    requires Solid(s) && Represents(s, m) && Canonical(t) && Node(t) && Represents(t, m)
    ensures Solid(t)
  {
    forall q ensures Lookup(t, q) != Some([]) {
      if Lookup(t, q).Some? {
        BoundIsFull(t, q);
        SolidBinds(s, q);
        assert Lookup(s, q) == Bindings.At(m, q);
      }
    }
    SolidIf(t);
  }

  /** The rebuilt trie has the same root exactly when the trie was canonical. */
  lemma SameRootIffCanonical(e: Env, s: Tree, t: Tree, m: Binds, r: Item, r': Item)
    requires Tame(e) && Sound(e, s) && Sound(e, t) && Canonical(t)
    requires Represents(s, m) && Represents(t, m)
    requires Plain(r) && Plain(r') && Canon(r) == Canon(RootItem(e, s)) && Canon(r') == Canon(RootItem(e, t))
    ensures BytesOf(r') == BytesOf(r) <==> Canonical(s)
  {
    hide Tame, Plain, Sound, Canonical, Solid;
    RootCommits(e, s, t);
    RootBytes(e, s, r);
    RootBytes(e, t, r');
    if Canonical(s) { SameCanonical(s, t, m); }
    SameBytes(r, r');
  }

  lemma SameCanonical(s: Tree, t: Tree, m: Binds)
    requires Canonical(s) && Canonical(t) && Represents(s, m) && Represents(t, m) && !s.Val? && !t.Val?
    ensures s == t
  {
    RepresentsUnique(s, t, m);
  }

  lemma RootBytes(e: Env, t: Tree, r: Item)
    requires Tame(e) && Sound(e, t) && Plain(r) && Canon(r) == Canon(RootItem(e, t))
    ensures (r.Text? || r.Raw?) && !t.Val? && (|BytesOf(r)| == 0 || |BytesOf(r)| >= 32)
  {
    PlainCanon(r);
    if !t.Empty? { RefForms(e, t); }
  }

  lemma SameBytes(x: Item, y: Item)
    requires (x.Text? || x.Raw?) && (y.Text? || y.Raw?) && |BytesOf(x)| != 1 && |BytesOf(y)| != 1
    ensures BytesOf(x) == BytesOf(y) <==> Canon(x) == Canon(y)
  {
  }

  /** The nodes that rebuilding makes on its way are among the environment's strings. */
  ghost predicate Rebuildable(e: Env, t: Tree) {
    forall i :: 0 <= i <= |Calls(EntriesOf(t, []))| ==> Fits(e, Build(Calls(EntriesOf(t, []))[..i]))
  }

  /**
   * ParanoiaCheck rebuilds the trie from an iteration and compares roots. The copy is a
   * canonical trie with the same bindings, and the check passes exactly when the original
   * was canonical.
   */
  method ParanoiaCheck(t1: Trie) returns (valid: bool, t2: Trie)
    requires t1.Live() && Solid(t1.tree) && Rebuildable(t1.cache.env, t1.tree)
    modifies t1.cache`nodes
    ensures t1.Live() && (old(t1.Valid()) ==> t1.Valid())
    ensures t2.Valid() && fresh(t2) && fresh(t2.cache) && t2.cache.db == t1.cache.db && t2.cache.env == t1.cache.env
    ensures t2.binds == t1.binds && Canonical(t2.tree) && t2.resident
    ensures valid <==> Canonical(t1.tree)
  {
    hide Tame, Leads, Represents, Solid, Canonical, KeyPath, Final, Build, Calls, EntriesOf, Plain, Crisp, Node, Fits, Coherent, Denotes,
      Trie.Valid, Written, Rooted;
    var e := t1.cache.env;
    CoherentAddressed(e, t1.cache.nodes, t1.cache.db.data);
    t2 := new Trie(t1.cache.db, e);
    StartEmpty();
    ghost var t := t1.tree;
    var calls := t1.Each();
    for i := 0 to |calls|
      invariant t1.Live() && (old(t1.Valid()) ==> t1.Valid()) && t2.Valid() && t2.resident
      invariant t2.cache.env == e && t2.cache.db == t1.cache.db
      invariant t2.binds == Final(calls[..i]) && t2.tree == Build(calls[..i])
    {
      var key, v := calls[i].0, calls[i].1;
      assert (key, v) in calls;
      ReadyFits(t1, key);
      FinalStep(calls, i);
      ValidLive(t2);
      t2.Update(key, v);
    }
    assert calls[..|calls|] == calls;
    BuildRepresents(calls);
    FinalIs(calls, t1.binds);
    var a, b := BytesOf(t2.root), BytesOf(t1.root);
    ValidLive(t2);
    ChecksRoots(t1, t2);
    valid := a == b;
  }

  lemma StartEmpty()
    ensures Final([]) == map[] && Build([]) == Empty
  {
  }

  lemma FinalStep(us: Updates, i: int)
    requires 0 <= i < |us|
    ensures Final(us[..i + 1]) == Final(us[..i])[us[i].0 := us[i].1]
    ensures Written(Build(us[..i]), us[i].0, us[i].1) == Build(us[..i + 1])
  {
    BuildRepresents(us[..i]);
    assert us[..i + 1][..i] == us[..i];
  }

  lemma ReadyFits(t: Trie, key: Bytes)
    requires t.Live() && key in t.binds
    ensures t.binds[key] != [0]
  {
    hide Tame, Coherent, Denotes, KeyPath;
    BindingFits(t.cache.env, t.tree, t.binds, key);
  }

  lemma ChecksRoots(t1: Trie, t2: Trie)
    requires t1.Live() && t2.Live() && Solid(t1.tree) && Canonical(t2.tree)
    requires t1.cache.env == t2.cache.env && t1.binds == t2.binds
    ensures BytesOf(t2.root) == BytesOf(t1.root) <==> Canonical(t1.tree)
  {
    hide Tame, Coherent, Holds, Stored, Fits, Node, Solid, Canonical, Represents, Plain;
    SolidCopy(t1.tree, t2.tree, t1.binds);
    SameRootIffCanonical(t1.cache.env, t1.tree, t2.tree, t1.binds, t1.root, t2.root);
  }

  lemma ValidLive(t: Trie)
    requires t.Valid()
    ensures t.Live() && t.tracked && Node(t.tree) && Represents(t.tree, t.binds)
  {
  }

  lemma LiveAddressed(t: Trie)
    requires t.Live()
    ensures Tame(t.cache.env) && Addressed(t.cache.env, t.cache.db.data)
  {
  }
}
