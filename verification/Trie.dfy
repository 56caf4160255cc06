/** The node cache and the trie of ethtrie/trie.go, updated in place over a database. */
module Trie {
  import opened Bytes
  import opened HexPrefix
  import opened Rlp
  import opened Options
  import opened Tree
  import opened Removal
  import opened Bindings
  import opened Merkle
  import opened Deletion

  class Database {
    var data: Data

    constructor ()
      ensures data == map[]
    {
      data := map[];
    }
  }

  /** A write-back cache of nodes over a database. */
  class Cache {
    var nodes: Nodes
    var isDirty: bool
    const db: Database
    const env: Env

    constructor (db: Database, env: Env)
      ensures this.db == db && this.env == env && nodes == map[] && !isDirty
    {
      this.db, this.env := db, env;
      nodes, isDirty := map[], false;
    }

    constructor With(db: Database, env: Env, nodes: Nodes)
      ensures this.db == db && this.env == env && this.nodes == nodes && !isDirty
    {
      this.db, this.env := db, env;
      this.nodes, isDirty := nodes, false;
    }

    method PutValue(v: Item, force: bool) returns (r: Item)
      modifies this
      ensures var enc := Encode(v);
              if |enc| >= 32 || force
              then r == Raw(env.hash(enc)) && isDirty && nodes == old(nodes)[env.hash(enc) := CacheNode(v, true)]
              else r == v && isDirty == old(isDirty) && nodes == old(nodes)
    {
      var enc := EncodeBuffer(v);
      if |enc| >= 32 || force {
        var sha := env.hash(enc);
        nodes := nodes[sha := CacheNode(v, true)];
        isDirty := true;
        return Raw(sha);
      }
      return v;
    }

    /** A miss is filled from the database and remembered as clean, also when there is nothing to fill it with. */
    method Get(key: Bytes) returns (v: Item)
      requires key in nodes || key !in db.data || Load(db.data[key]).Some?
      modifies this`nodes
      ensures key in old(nodes) ==> v == old(nodes[key].value) && nodes == old(nodes)
      ensures key !in old(nodes) ==> nodes == old(nodes)[key := CacheNode(v, false)]
      ensures key !in old(nodes) ==> v == if key in db.data then Load(db.data[key]).value else Nil
    {
      if key in nodes {
        return nodes[key].value;
      }
      v := if key in db.data then Load(db.data[key]).value else Nil;
      nodes := nodes[key := CacheNode(v, false)];
    }

    method Commit()
      modifies this, db
      ensures db.data == SyncedData(old(nodes), old(db.data), old(isDirty))
      ensures nodes == SyncedNodes(old(nodes), old(isDirty)) && !isDirty
      ensures old(isDirty) ==> forall h :: h in old(nodes) && old(nodes[h].dirty) ==>
        h in db.data && db.data[h] == Encode(old(nodes[h].value))
      ensures old(isDirty) ==> if |old(nodes)| > 200 then nodes == map[] else nodes.Keys == old(nodes.Keys)
    {
      if !isDirty { return; }
      var todo := nodes.Keys;
      CommitStart(nodes, db.data);
      while todo != {}
        invariant todo <= old(nodes.Keys)
        invariant nodes == CleanedBut(old(nodes), todo)
        invariant db.data == CommittedBut(old(nodes), old(db.data), todo)
        decreases todo
      {
        var key :| key in todo;
        CommitStep(old(nodes), old(db.data), todo, key);
        if nodes[key].dirty {
          var enc := EncodeBuffer(nodes[key].value);
          db.data := db.data[key := enc];
          nodes := nodes[key := nodes[key].(dirty := false)];
        }
        todo := todo - {key};
      }
      isDirty := false;
      assert nodes.Keys == old(nodes.Keys);
      if |nodes| > 200 {
        nodes := map[];
      }
    }

    method Undo()
      modifies this
      ensures nodes == Reverted(old(nodes)) && !isDirty
    {
      var todo := nodes.Keys;
      while todo != {}
        invariant todo <= old(nodes.Keys)
        invariant forall h :: h in nodes <==> h in old(nodes) && (h in todo || !old(nodes[h]).dirty)
        invariant forall h :: h in nodes ==> nodes[h] == old(nodes[h])
        decreases todo
      {
        var key :| key in todo;
        if nodes[key].dirty {
          nodes := nodes - {key};
        }
        todo := todo - {key};
      }
      isDirty := false;
    }
  }

  /** EmptyStringSlice. */
  function EmptyStringSlice(l: nat): seq<Item> {
    seq(l, _ => Text([]))
  }

  /**
   * No empty string came back from the database. Reloaded, it is an empty []byte, which the
   * comparison with "" in deleteState does not recognise.
   */
  predicate Crisp(x: Item) {
    x != Raw([]) && (x.List? ==> forall i :: 0 <= i < |x.items| ==> Crisp(x.items[i]))
  }

  predicate CrispNodes(nodes: Nodes) {
    forall h :: h in nodes ==> Crisp(nodes[h].value)
  }

  /** The value a tree gives a key, with the empty string for none. */
  function Read(t: Tree, key: Path): Bytes {
    match Lookup(t, key)
    case Some(v) => v
    case None => []
  }

  class Trie {
    const cache: Cache
    var root: Item
    var prevRoot: Item

    /** What the trie binds, and the tree that does it: now, and at the last Sync. */
    ghost var binds: Binds
    ghost var tree: Tree
    ghost var syncBinds: Binds
    ghost var syncTree: Tree

    /** Whether the trie lives in the cache alone and has not been reloaded from the database. */
    ghost var resident: bool
    /** Whether the cache's flag is known to cover its dirty nodes: not in a copy nothing was written to. */
    ghost var tracked: bool

    ghost function Now(): View
      reads this`resident, cache, cache.db
    {
      View(cache.env, cache.nodes, if resident then map[] else cache.db.data)
    }

    ghost predicate Ready()
      reads this`resident, this`tracked, cache, cache.db
    {
      && Tame(cache.env)
      && Coherent(cache.env, cache.nodes, cache.db.data)
      && (resident ==> CrispNodes(cache.nodes))
      && (tracked ==> Tracked(cache.nodes, cache.isDirty))
    }

    /** The trie answers for its bindings. */
    ghost predicate Live()
      reads this, cache, cache.db
    {
      && Ready()
      && Rooted(Now(), root, tree, binds)
      && (resident ==> Crisp(root))
    }

    /** It can also be synced, and undone to the last Sync. */
    ghost predicate Valid()
      reads this, cache, cache.db
    {
      && Live() && tracked
      && Rooted(View(cache.env, map[], cache.db.data), prevRoot, syncTree, syncBinds)
    }

    /** New(db, ""): an empty trie over any database. */
    constructor (db: Database, env: Env)
      requires Tame(env) && Addressed(env, db.data)
      ensures Valid() && fresh(cache) && cache.db == db && cache.env == env
      ensures binds == syncBinds == map[] && tree == syncTree == Empty && root == Text([]) && resident
    {
      resident, tracked := true, true;
      cache := new Cache(db, env);
      root, prevRoot := Text([]), Text([]);
      binds, syncBinds := map[], map[];
      tree, syncTree := Empty, Empty;
    }

    /** New(db, root): the trie that the database holds under a root. */
    constructor Open(db: Database, env: Env, root: Item, ghost t: Tree, ghost m: Binds)
      requires Tame(env) && Addressed(env, db.data) && Rooted(View(env, map[], db.data), root, t, m)
      ensures Valid() && fresh(cache) && cache.db == db && cache.env == env && this.root == root
      ensures binds == syncBinds == m && tree == syncTree == t && !resident
    {
      resident, tracked := false, true;
      cache := new Cache(db, env);
      this.root, prevRoot := root, root;
      binds, syncBinds := m, m;
      tree, syncTree := t, t;
    }

    /** Trie.Copy: a cache of its own with the same nodes over the same database. The flag and prevRoot are not copied. */
    method Copy() returns (t: Trie)
      requires Live()
      ensures fresh(t) && fresh(t.cache) && t.cache.db == cache.db && t.cache.env == cache.env
      ensures t.Live() && t.binds == binds && t.tree == tree && t.root == root
    {
      t := new Trie.Twin(this);
    }

    constructor Twin(of: Trie)
      requires of.Live()
      ensures fresh(cache) && cache.db == of.cache.db && cache.env == of.cache.env && cache.nodes == of.cache.nodes
      ensures Live() && binds == of.binds && tree == of.tree && root == of.root && !tracked
    {
      resident, tracked := of.resident, false;
      cache := new Cache.With(of.cache.db, of.cache.env, of.cache.nodes);
      root, prevRoot := of.root, of.root;
      binds, syncBinds := of.binds, of.binds;
      tree, syncTree := of.tree, of.tree;
    }

    // ------------------------------------------------------------------ reading

    /** getNode follows a reference. Strings of 1 to 31 bytes, which it would decode, are never references. */
    method GetNode(node: Item, ghost t: Tree) returns (c: Item)
      requires Ready() && Leads(Now(), node, t) && Node(t) && (resident ==> Crisp(node))
      modifies cache`nodes
      ensures Ready() && Grown(old(Now()), Now()) && Opened(Now(), c, t) && (resident ==> Crisp(c))
    {
      hide Leads, Opened, Denotes, IsRef, Crisp;
      Follow(Now(), node, t);
      if !GetAt(node, 0).Nil? {
        return node;
      }
      var str := StrOf(node);
      if |str| == 0 {
        return node;
      } else if |str| < 32 {
        assert false;
      }
      CoherentGet(cache.env, cache.nodes, cache.db.data, BytesOf(node));
      c := cache.Get(BytesOf(node));
      Fetched(old(Now()), Now(), c, node, t);
    }

    method GetState(node: Item, key: Path, ghost t: Tree) returns (r: Item)
      requires Ready() && Leads(Now(), node, t) && (resident ==> Crisp(node))
      requires if key == [] then t.Val? || t.Empty? else Full(key) && Node(t)
      modifies cache`nodes
      ensures Ready() && Grown(old(Now()), Now())
      ensures StrOf(r) == Read(t, key)
      decreases t
    {
      hide Leads, Opened, Grown;
      ReadParts(t, key);
      GrownRefl(Now());
      if key == [] {
        StoredValue(Now(), node, t);
        return node;
      }
      Follow(Now(), node, t);
      if node.Nil? || LenOf(node) == 0 {
        return node;
      }
      var currentNode := GetNode(node, t);
      ghost var mid := Now();
      r := GetBelow(currentNode, key, t);
      GrownTrans(old(Now()), mid, Now());
    }

    method GetBelow(currentNode: Item, key: Path, ghost t: Tree) returns (r: Item)
      requires Ready() && Opened(Now(), currentNode, t) && Full(key) && Node(t) && (resident ==> Crisp(currentNode))
      modifies cache`nodes
      ensures Ready() && Grown(old(Now()), Now())
      ensures StrOf(r) == Read(t, key)
      decreases t, 0
    {
      hide Opened, CompactDecode, Coherent, Tame, Grown, Leads, Sits, Read, Crisp, Node, CompactEncode;
      ReadParts(t, key);
      GrownRefl(Now());
      OpenedLen(Now(), currentNode, t);
      CrispParts(currentNode);
      var length := LenOf(currentNode);
      if length == 0 {
        r := Text([]);
      } else if length == 2 {
        OpenedShort(Now(), currentNode, t);
        var k := CompactDecode(StrOf(GetAt(currentNode, 0)));
        var v := GetAt(currentNode, 1);
        var same := |key| >= |k|;
        if same { same := CompareIntSlice(k, key[..|k|]); }
        if same {
          BelowPath(t, key);
          r := GetState(v, key[|k|..], t.child);
        } else {
          r := Text([]);
        }
      } else {
        BelowSlot0(t, key);
        OpenedBranch(Now(), currentNode, t, key[0]);
        r := GetState(GetAt(currentNode, key[0]), key[1..], t.kids[key[0]]);
      }
    }

    method Get(key: Bytes) returns (v: Bytes)
      requires Live()
      modifies cache`nodes
      ensures Live() && (old(Valid()) ==> Valid())
      ensures v == if key in binds then binds[key] else []
    {
      var k := KeyPath(key);
      var c := GetState(root, k, tree);
      StillRooted(old(Now()), Now(), root, tree, binds);
      KeyOfKeyPath(key);
      v := StrOf(c);
    }

    // ------------------------------------------------------------------ writing

    method Put(node: Item, ghost t: Tree) returns (r: Item)
      requires Ready() && Built(Now(), node, t) && (resident ==> Crisp(node))
      modifies cache
      ensures Ready() && Grown(old(Now()), Now()) && Sits(Now(), r, t) && (resident ==> Crisp(r))
    {
      hide Built, Sits, Leads, Grows, Encode, Tame;
      PutSits(Now(), node, t);
      CoherentPut(cache.env, cache.nodes, cache.db.data, node);
      GrownRefl(Now());
      r := cache.PutValue(node, false);
    }

    /** A two-item node over what a parent stores for c. */
    method PutShort(k: Path, x: Item, ghost c: Tree) returns (r: Item)
      requires Ready() && Node(Short(k, c)) && Fits(cache.env, Short(k, c)) && Sits(Now(), x, c)
      requires resident ==> Crisp(x)
      modifies cache
      ensures Ready() && Grown(old(Now()), Now()) && Sits(Now(), r, Short(k, c)) && (resident ==> Crisp(r))
    {
      hide Sits, Built, Grown, CompactEncode, Coherent, Tame;
      BuiltShort(Now(), k, x, c);
      var enc := CompactEncodeLoop(k);
      r := Put(List([Text(enc), x]), Short(k, c));
    }

    /** InsertState on the empty node. */
    method InsertNew(key: Path, value: Item, ghost sub: Tree) returns (r: Item)
      requires Ready() && Fits(cache.env, Place(key, sub)) && Sits(Now(), value, sub)
      requires key != [] ==> Node(Short(key, sub))
      requires resident ==> Crisp(value)
      modifies cache
      ensures Ready() && Grown(old(Now()), Now()) && Sits(Now(), r, Place(key, sub)) && (resident ==> Crisp(r))
    {
      hide Sits, Grown, Coherent, Tame;
      GrownRefl(Now());
      if key == [] {
        return value;
      }
      r := PutShort(key, value, sub);
    }

    method InsertState(node: Item, key: Path, value: Item, ghost t: Tree, ghost sub: Tree) returns (r: Item)
      requires Ready() && Leads(Now(), node, t) && Sits(Now(), value, sub)
      requires Fits(cache.env, Insert(Seen(node, t), key, sub))
      requires sub.Val? && (key == [] || (Full(key) && Node(t)))
      requires resident ==> Crisp(node) && Crisp(value)
      modifies cache
      ensures Ready() && Grown(old(Now()), Now()) && (resident ==> Crisp(r))
      ensures Sits(Now(), r, Insert(Seen(node, t), key, sub))
      decreases |key|, 1
    {
      hide Sits, Leads, Grown, Opened, Coherent, Tame, Crisp, Node, Insert, Fits, LenOf, StrOf, BytesOf;
      GrownRefl(Now());
      InsertStateIs(node, t, key, sub);
      if key == [] {
        return value;
      }
      Follow(Now(), node, t);
      if node.Nil? || LenOf(node) == 0 {
        r := InsertNew(key, value, sub);
        return;
      }
      var currentNode := GetNode(node, t);
      ghost var mid := Now();
      StillSits(old(Now()), mid, value, sub);
      OpenedLen(mid, currentNode, t);
      if LenOf(currentNode) == 2 {
        r := InsertShort(currentNode, key, value, t, sub);
      } else {
        r := InsertBranch(currentNode, key, value, t, sub);
      }
      GrownTrans(old(Now()), mid, Now());
    }

    /** The two-item case: replace the value, descend, or expand to 17 items where the paths part. */
    method InsertShort(currentNode: Item, key: Path, value: Item, ghost t: Tree, ghost sub: Tree) returns (r: Item)
      requires Ready() && t.Short? && Node(t) && Opened(Now(), currentNode, t)
      requires Full(key) && sub.Val? && Sits(Now(), value, sub) && Fits(cache.env, Insert(t, key, sub))
      requires resident ==> Crisp(currentNode) && Crisp(value)
      modifies cache
      ensures Ready() && Grown(old(Now()), Now()) && Sits(Now(), r, Insert(t, key, sub)) && (resident ==> Crisp(r))
      decreases |key|, 0
    {
      hide Sits, Leads, Grown, Opened, Coherent, Tame, CompactDecode, CompactEncode, Crisp, Insert, Fork, LenOf, StrOf, Node, Place, Full, Partial, PathOk, Match, Starts;
      ShortNode(t, key, sub);
      OpenedShort(Now(), currentNode, t);
      CrispParts(currentNode);
      InsertShortIs(t, key, sub);
      var k := CompactDecode(StrOf(GetAt(currentNode, 0)));
      var v := GetAt(currentNode, 1);
      var same := CompareIntSlice(k, key);
      if same {
        r := PutShort(key, value, sub);
        return;
      }
      var m := MatchingNibbleLength(key, k);
      InsertSplits(k, key);
      assert key[..m] == k[..m];
      if m == |k| {
        r := Descend(k, v, key, value, t, sub);
      } else {
        r := Split(k, v, key, value, t.child, sub, m);
      }
    }

    /** Insert below a path that the key starts with. */
    method Descend(k: Path, v: Item, key: Path, value: Item, ghost t: Tree, ghost sub: Tree) returns (r: Item)
      requires Ready() && t.Short? && t.path == k && k != [] && Partial(k) && Node(t.child) && Starts(k, key)
      requires Full(key) && Full(key[|k|..]) && sub.Val? && Fits(cache.env, Place(k, Insert(t.child, key[|k|..], sub)))
      requires Sits(Now(), v, t.child) && Sits(Now(), value, sub)
      requires resident ==> Crisp(v) && Crisp(value)
      modifies cache
      ensures Ready() && Grown(old(Now()), Now()) && Sits(Now(), r, Place(k, Insert(t.child, key[|k|..], sub)))
      ensures resident ==> Crisp(r)
      decreases |key|, 0, 0
    {
      hide Sits, Leads, Grown, Coherent, Tame, Insert, Crisp;
      ghost var w0 := Now();
      if t.child.Void? { VoidSits(w0, v); }
      SitsLeads(w0, v, t.child);
      assert Seen(v, t.child) == t.child;
      var newHash := InsertState(v, key[|k|..], value, t.child, sub);
      InsertDeepNode(t.child, key[|k|..], sub);
      ghost var w1 := Now();
      r := Wrap(k, newHash, Insert(t.child, key[|k|..], sub));
      GrownTrans(w0, w1, Now());
    }

    /** Expand where the paths part and put their common part in front. */
    method Split(k: Path, v: Item, key: Path, value: Item, ghost c: Tree, ghost sub: Tree, m: nat) returns (r: Item)
      requires Ready() && m < |k| && m < |key| && Fits(cache.env, Place(key[..m], Fork(k, c, key, sub, m)))
      requires Node(Short(k, c)) && Full(key) && sub.Val? && 0 <= k[m] < 17 && 0 <= key[m] < 17 && k[m] != key[m]
      requires Sits(Now(), v, c) && Sits(Now(), value, sub) && Partial(key[..m])
      requires resident ==> Crisp(v) && Crisp(value)
      modifies cache
      ensures Ready() && Grown(old(Now()), Now()) && Sits(Now(), r, Place(key[..m], Fork(k, c, key, sub, m)))
      ensures resident ==> Crisp(r)
    {
      hide Sits, Grown, Coherent, Tame, Fork, Crisp;
      ghost var w0 := Now();
      ForkNode(k, c, key, sub, m);
      var newHash := Expand(k, v, key, value, c, sub, m);
      ghost var w1 := Now();
      var p := key[..m];
      r := Wrap(p, newHash, Fork(k, c, key, sub, m));
      GrownTrans(w0, w1, Now());
    }

    /** The end of the two-item case: the common part of the paths, if any, goes in front of the new node. */
    method Wrap(p: Path, newHash: Item, ghost c: Tree) returns (r: Item)
      requires Ready() && Partial(p) && Node(c) && Fits(cache.env, Place(p, c)) && Sits(Now(), newHash, c)
      requires resident ==> Crisp(newHash)
      modifies cache
      ensures Ready() && Grown(old(Now()), Now()) && Sits(Now(), r, Place(p, c)) && (resident ==> Crisp(r))
    {
      hide Sits, Grown, Coherent, Tame;
      GrownRefl(Now());
      if |p| == 0 {
        r := newHash;
      } else {
        r := PutShort(p, newHash, c);
      }
    }

    /** Expand a two-item node to 17 items at the nibble where the paths part. */
    method Expand(k: Path, v: Item, key: Path, value: Item, ghost c: Tree, ghost sub: Tree, m: nat) returns (r: Item)
      requires Ready() && m < |k| && m < |key| && Fits(cache.env, Fork(k, c, key, sub, m))
      requires Node(Short(k, c)) && Full(key) && sub.Val? && 0 <= k[m] < 17 && 0 <= key[m] < 17 && k[m] != key[m]
      requires Sits(Now(), v, c) && Sits(Now(), value, sub)
      requires resident ==> Crisp(v) && Crisp(value)
      modifies cache
      ensures Ready() && Grown(old(Now()), Now()) && Sits(Now(), r, Fork(k, c, key, sub, m))
      ensures resident ==> Crisp(r)
    {
      hide Sits, Grown, Coherent, Tame, Built, Fits, Crisp;
      FitsForkParts(cache.env, k, c, key, sub, m);
      CrispFork();
      PlaceNode(k, c, m);
      PlaceNode(key, sub, m);
      ForkNode(k, c, key, sub, m);
      ghost var w0 := Now();
      var oldNode := InsertNew(k[m + 1..], v, c);
      ghost var w1 := Now();
      StillSits(w0, w1, value, sub);
      var newNode := InsertNew(key[m + 1..], value, sub);
      ghost var w2 := Now();
      StillSits(w1, w2, oldNode, Place(k[m + 1..], c));
      EmptySits(w2);
      var scaledSlice := EmptyStringSlice(17);
      scaledSlice := scaledSlice[k[m] := oldNode];
      scaledSlice := scaledSlice[key[m] := newNode];
      CrispList(scaledSlice);
      BuiltBranch(w2, scaledSlice, Fork(k, c, key, sub, m).kids);
      r := Put(List(scaledSlice), Fork(k, c, key, sub, m));
      GrownTrans(w0, w1, w2);
      GrownTrans(w0, w2, Now());
    }

    /** The 17-item case: copy the node and replace the slot of the key's first nibble. */
    method InsertBranch(currentNode: Item, key: Path, value: Item, ghost t: Tree, ghost sub: Tree) returns (r: Item)
      requires Ready() && (t.Branch? || t.Void?) && Node(t) && Opened(Now(), currentNode, t)
      requires Full(key) && sub.Val? && Sits(Now(), value, sub)
      requires Fits(cache.env, Insert(if t.Void? then Branch(Blank()) else t, key, sub))
      requires resident ==> Crisp(currentNode) && Crisp(value)
      modifies cache
      ensures Ready() && Grown(old(Now()), Now()) && (resident ==> Crisp(r))
      ensures Sits(Now(), r, Insert(if t.Void? then Branch(Blank()) else t, key, sub))
      decreases |key|, 0
    {
      hide Sits, Leads, Grown, Opened, Coherent, Tame, Built, Crisp, LenOf, StrOf, Fits, Insert;
      ghost var kids := if t.Void? then Blank() else t.kids;
      ghost var w0 := Now();
      var newNode := CopyBranch(currentNode);
      CopySits(w0, currentNode, newNode, t);
      CopyCrisp(currentNode, newNode);
      BelowSlot0(Branch(kids), key);
      var i := key[0];
      SitsLeads(w0, newNode[i], kids[i]);
      if kids[i].Void? { VoidSits(w0, newNode[i]); }
      FitsInsertSlot(cache.env, kids, key, sub);
      var child := InsertState(newNode[i], key[1..], value, kids[i], sub);
      ghost var w1 := Now();
      ghost var kids' := kids[i := Insert(kids[i], key[1..], sub)];
      InsertNode(Branch(kids), key, sub.v);
      forall j | 0 <= j < 17
        ensures Sits(w1, newNode[i := child][j], kids'[j])
      {
        StillSits(w0, w1, newNode[j], kids[j]);
      }
      newNode := newNode[i := child];
      CrispList(newNode);
      BuiltBranch(w1, newNode, kids');
      r := Put(List(newNode), Branch(kids'));
      GrownTrans(w0, w1, Now());
    }

    // ----------------------------------------------------------------- deleting

    /**
     * deleteState. It returns the reference it was given when there is nothing to delete. The
     * ghost result says which slots it took for the only occupied ones on the way.
     */
    method DeleteState(node: Item, key: Path, ghost t: Tree) returns (r: Item, ghost picks: seq<int>)
      requires Ready() && Leads(Now(), node, t) && NonEmpty(t) && (resident ==> Crisp(node))
      requires if key == [] then t.Val? || t.Empty? else Full(key) && Node(t) && Guarded(t, key)
      requires Removable(cache.env, Seen(node, t), key)
      modifies cache
      ensures Ready() && Grown(old(Now()), Now()) && (resident ==> Crisp(r))
      ensures Allowed(cache.env, Seen(node, t), key, picks)
      ensures var t' := RemoveBy(cache.env, Seen(node, t), key, picks);
        && (Sits(Now(), r, t') || (r == node && t' == t))
        && (resident ==> t' == RemoveAs(cache.env, Seen(node, t), key))
      decreases |key|, 1
    {
      hide Sits, Leads, Grown, Opened, Coherent, Tame, Crisp, Guarded, NonEmpty, Removable;
      GrownRefl(Now());
      EmptySits(Now());
      CrispEmpty();
      if key == [] {
        return Text([]), [];
      }
      Follow(Now(), node, t);
      if node.Nil? || LenOf(node) == 0 {
        return Text([]), [];
      }
      var currentNode := GetNode(node, t);
      ghost var mid := Now();
      OpenedLen(mid, currentNode, t);
      if LenOf(currentNode) == 2 {
        r, picks := DeleteShort(node, currentNode, key, t);
      } else {
        r, picks := DeleteBranch(currentNode, key, t, if t.Void? then Blank() else t.kids);
      }
      GrownTrans(old(Now()), mid, Now());
    }

    method DeleteShort(node: Item, currentNode: Item, key: Path, ghost t: Tree) returns (r: Item, ghost picks: seq<int>)
      requires Ready() && t.Short? && Node(t) && Opened(Now(), currentNode, t)
      requires NonEmpty(t) && Full(key) && Guarded(t, key) && (resident ==> Crisp(currentNode) && Crisp(node))
      requires Removable(cache.env, t, key)
      modifies cache
      ensures Ready() && Grown(old(Now()), Now()) && (resident ==> Crisp(r))
      ensures Allowed(cache.env, t, key, picks)
      ensures var t' := RemoveBy(cache.env, t, key, picks);
        (Sits(Now(), r, t') || (r == node && t' == t)) && (resident ==> t' == RemoveAs(cache.env, t, key))
      decreases |key|, 0
    {
      hide Sits, Leads, Grown, Opened, Coherent, Tame, Crisp, NonEmpty, CompactDecode, CompactEncode, Removable;
      GrownRefl(Now());
      EmptySits(Now());
      CrispEmpty();
      OpenedShort(Now(), currentNode, t);
      CrispParts(currentNode);
      picks := [];
      var k := CompactDecode(StrOf(GetAt(currentNode, 0)));
      var v := GetAt(currentNode, 1);
      var same := CompareIntSlice(k, key);
      if same {
        return Text([]), [];
      }
      same := CompareIntSlice(key[..|k|], k);
      if !same {
        return node, [];
      }
      PartialBelow(t, key);
      NonEmptyChild(t);
      r, picks := DeleteBelow(k, StrOf(GetAt(currentNode, 0)), v, key, t);
    }

    /** The extension case: delete below and merge two two-item nodes in a row. */
    method DeleteBelow(k: Path, enc: Bytes, v: Item, key: Path, ghost t: Tree) returns (r: Item, ghost picks: seq<int>)
      requires Ready() && t.Short? && Node(t) && NonEmpty(t.child) && k == t.path != key && Partial(k) && Starts(k, key) && Full(key[|k|..])
      requires enc == CompactEncode(k) && Sits(Now(), v, t.child)
      requires Guarded(t.child, key[|k|..]) && (resident ==> Crisp(v)) && Node(t.child) && Removable(cache.env, t, key)
      modifies cache
      ensures Ready() && Grown(old(Now()), Now()) && (resident ==> Crisp(r))
      ensures Allowed(cache.env, t.child, key[|k|..], picks)
      ensures var c' := RemoveBy(cache.env, t.child, key[|k|..], picks);
        Sits(Now(), r, Join(k, c')) && (resident ==> c' == RemoveAs(cache.env, t.child, key[|k|..]))
      decreases |key|, 0, 0
    {
      hide Sits, Leads, Grown, Opened, Coherent, Tame, Crisp, CompactDecode, CompactEncode, Guarded, Removable, Allowed, RemoveBy, RemoveAs;
      ghost var w0 := Now();
      SitsLeads(w0, v, t.child);
      if t.child.Void? { VoidSits(w0, v); }
      RemovableShort(cache.env, t, key);
      var hash;
      hash, picks := DeleteState(v, key[|k|..], t.child);
      ghost var c' := RemoveBy(cache.env, t.child, key[|k|..], picks);
      RemoveByNode(cache.env, t.child, key[|k|..], picks);
      ghost var w1 := Now();
      StillSits(w0, w1, v, t.child);
      SitsLeads(w1, hash, c');
      var child := GetNode(hash, c');
      ghost var w2 := Now();
      StillSits(w1, w2, hash, c');
      RemovableResult(cache.env, t, key, picks);
      r := Merge(k, enc, hash, child, c');
      GrownTrans(w0, w1, w2);
      GrownTrans(w0, w2, Now());
    }

    /** Put an extension over a changed child, or one two-item node for two in a row. */
    method Merge(k: Path, enc: Bytes, hash: Item, child: Item, ghost c: Tree) returns (r: Item)
      requires Ready() && k != [] && Partial(k) && Node(c) && Fits(cache.env, Join(k, c)) && enc == CompactEncode(k)
      requires Sits(Now(), hash, c) && Opened(Now(), child, c) && (resident ==> Crisp(hash) && Crisp(child))
      modifies cache
      ensures Ready() && Grown(old(Now()), Now()) && Sits(Now(), r, Join(k, c)) && (resident ==> Crisp(r))
    {
      hide Sits, Grown, Opened, Coherent, Tame, Crisp, CompactDecode, CompactEncode, Built, Node, Fits;
      OpenedLen(Now(), child, c);
      CrispParts(child);
      JoinNode(k, c);
      if LenOf(child) == 2 {
        OpenedShort(Now(), child, c);
        var newKey := k + CompactDecode(StrOf(GetAt(child, 0)));
        assert newKey == k + c.path;
        r := PutShort(newKey, GetAt(child, 1), c.child);
      } else {
        CrispShort(enc, hash);
        BuiltShort(Now(), k, hash, c);
        r := Put(List([Text(enc), hash]), Short(k, c));
      }
    }

    /** The 17-item case: delete in a slot, then collapse if only one slot seems occupied. */
    method DeleteBranch(currentNode: Item, key: Path, ghost t: Tree, ghost kids: seq<Tree>) returns (r: Item, ghost picks: seq<int>)
      requires Ready() && (t.Branch? || t.Void?) && Node(t) && Opened(Now(), currentNode, t)
      requires kids == (if t.Void? then Blank() else t.kids) && Removable(cache.env, Branch(kids), key)
      requires NonEmpty(t) && Full(key) && Guarded(t, key) && (resident ==> Crisp(currentNode))
      modifies cache
      ensures Ready() && Grown(old(Now()), Now()) && (resident ==> Crisp(r))
      ensures Allowed(cache.env, Branch(kids), key, picks)
      ensures var t' := RemoveBy(cache.env, Branch(kids), key, picks);
        Sits(Now(), r, t') && (resident ==> t' == RemoveAs(cache.env, Branch(kids), key))
      decreases |key|, 0
    {
      hide Sits, Leads, Grown, Opened, Coherent, Tame, Crisp, NonEmpty, Guarded, Removable, RemoveAs, RemoveBy, Allowed, Fits;
      ghost var w0 := Now();
      var xs := CopyBranch(currentNode);
      CopySits(w0, currentNode, xs, t);
      CopyCrisp(currentNode, xs);
      BelowSlot0(Branch(kids), key);
      DeleteSlot(t, kids, key);
      SitsLeads(w0, xs[key[0]], kids[key[0]]);
      if kids[key[0]].Void? { VoidSits(w0, xs[key[0]]); }
      RemovableSlot(cache.env, kids, key);
      var slot;
      ghost var inner;
      slot, inner := DeleteState(xs[key[0]], key[1..], kids[key[0]]);
      ghost var w1 := Now();
      ghost var x := RemoveBy(cache.env, kids[key[0]], key[1..], inner);
      SlotSits(w0, w1, xs, slot, kids, key[0], x);
      DeletedKids(cache.env, t, kids, key, inner);
      xs := xs[key[0] := slot];
      r, picks := CloseSlots(xs, key, kids, inner);
      GrownTrans(w0, w1, Now());
    }

    /** The rest of the 17-item case: count the slots that seem occupied and collapse if there is one. */
    method CloseSlots(xs: seq<Item>, key: Path, ghost kids: seq<Tree>, ghost inner: seq<int>) returns (r: Item, ghost picks: seq<int>)
      requires Ready() && key != [] && |xs| == 17 == |kids| && 0 <= key[0] < 17 && Removable(cache.env, Branch(kids), key)
      requires Allowed(cache.env, kids[key[0]], key[1..], inner)
      requires var kids' := kids[key[0] := RemoveBy(cache.env, kids[key[0]], key[1..], inner)];
        && Node(Branch(kids')) && NonEmpty(Branch(kids'))
        && forall j :: 0 <= j < 17 ==> Sits(Now(), xs[j], kids'[j])
      requires resident ==> forall j :: 0 <= j < 17 ==> Crisp(xs[j])
      requires resident ==> RemoveBy(cache.env, kids[key[0]], key[1..], inner) == RemoveAs(cache.env, kids[key[0]], key[1..])
      modifies cache
      ensures Ready() && Grown(old(Now()), Now()) && (resident ==> Crisp(r))
      ensures Allowed(cache.env, Branch(kids), key, picks)
      ensures var t' := RemoveBy(cache.env, Branch(kids), key, picks);
        Sits(Now(), r, t') && (resident ==> t' == RemoveAs(cache.env, Branch(kids), key))
    {
      hide Sits, Grown, Coherent, Tame, Crisp, NonEmpty, Removable, RemoveAs, RemoveBy, Allowed, Fits, Node, CollapseAt, CollapseAs;
      ghost var w, kids' := Now(), kids[key[0] := RemoveBy(cache.env, kids[key[0]], key[1..], inner)];
      var amount := CountSlots(xs);
      picks := [amount] + inner;
      SlotsAlone(w, xs, kids', amount);
      PicksCons(cache.env, kids, key, amount, inner);
      RemovableResult(cache.env, Branch(kids), key, picks);
      r := CollapseSlots(xs, amount, kids');
      if resident {
        CrispCollapse(w, xs, kids', amount);
        RemoveUnfolds(cache.env, kids, key);
      }
    }

    /** Build what a branch becomes, given its slots and how many seem occupied. */
    method CollapseSlots(xs: seq<Item>, amount: int, ghost kids: seq<Tree>) returns (r: Item)
      requires Ready() && Node(Branch(kids)) && |xs| == 17 && amount < 17 && Fits(cache.env, CloseBranch(cache.env, kids, amount))
      requires forall j :: 0 <= j < 17 ==> Sits(Now(), xs[j], kids[j])
      requires resident ==> forall j :: 0 <= j < 17 ==> Crisp(xs[j])
      modifies cache
      ensures Ready() && Grown(old(Now()), Now()) && (resident ==> Crisp(r))
      ensures Sits(Now(), r, CloseBranch(cache.env, kids, amount))
    {
      hide Sits, Leads, Grown, Opened, Coherent, Tame, Built, CompactDecode, CompactEncode, Encode, Fits;
      ghost var w0 := Now();
      if amount >= 0 { CollapseNode(cache.env, kids, amount); }
      if amount == 16 {
        r := PutShort([16], xs[16], kids[16]);
      } else if amount >= 0 {
        SitsLeads(w0, xs[amount], kids[amount]);
        var child := GetNode(xs[amount], kids[amount]);
        ghost var w1 := Now();
        OpenedLen(w1, child, kids[amount]);
        StillSits(w0, w1, xs[amount], kids[amount]);
        if LenOf(child) == 17 {
          r := PutShort([amount], xs[amount], kids[amount]);
        } else if LenOf(child) == 2 {
          OpenedShort(w1, child, kids[amount]);
          var key := [amount] + CompactDecode(StrOf(GetAt(child, 0)));
          CutSits(w1, GetAt(child, 1), kids[amount].child);
          r := PutShort(key, Text(StrOf(GetAt(child, 1))), Cut(cache.env, kids[amount].child));
        } else {
          BuiltVoid(w1);
          r := Put(List([]), Void);
        }
        GrownTrans(w0, w1, Now());
      } else {
        BuiltBranch(w0, xs, kids);
        r := Put(List(xs), Branch(kids));
      }
    }

    // ---------------------------------------------------------------- iterating

    /** iterateNode, with the calls it makes as its result. */
    method IterateNode(pre: Path, currentNode: Item, ghost t: Tree) returns (calls: seq<(Bytes, Bytes)>)
      requires Ready() && Opened(Now(), currentNode, t) && Node(t) && Solid(t) && Partial(pre) && Paired(EntriesOf(t, pre))
      requires resident ==> Crisp(currentNode)
      modifies cache`nodes
      ensures Ready() && Grown(old(Now()), Now())
      ensures calls == Calls(EntriesOf(t, pre))
      decreases t, 2
    {
      hide Sits, Leads, Grown, Opened, Coherent, Tame, Crisp, CompactDecode, CompactEncode, EntriesOf, Calls, Node, Solid, BytesOf;
      GrownRefl(Now());
      OpenedLen(Now(), currentNode, t);
      CrispParts(currentNode);
      EntriesParts(t, pre);
      SolidChild(t);
      if LenOf(currentNode) == 2 {
        OpenedShort(Now(), currentNode, t);
        var k := CompactDecode(StrOf(GetAt(currentNode, 0)));
        calls := IterateShort(pre, k, GetAt(currentNode, 1), t);
      } else if LenOf(currentNode) == 17 {
        calls := IterateSlots(pre, currentNode, t);
      } else {
        calls := [];
      }
    }

    method IterateShort(pre: Path, k: Path, y: Item, ghost t: Tree) returns (calls: seq<(Bytes, Bytes)>)
      requires Ready() && t.Short? && Node(t) && Solid(t) && k == t.path && Sits(Now(), y, t.child) && Partial(pre)
      requires Paired(EntriesOf(t.child, pre + k)) && (resident ==> Crisp(y))
      modifies cache`nodes
      ensures Ready() && Grown(old(Now()), Now())
      ensures calls == Calls(EntriesOf(t.child, pre + k))
      decreases t, 1
    {
      hide Sits, Leads, Grown, Opened, Coherent, Tame, Crisp, EntriesOf, Calls, Node, Solid, BytesOf;
      GrownRefl(Now());
      SolidChild(t);
      SitsLeads(Now(), y, t.child);
      SlotForm(Now(), y, t.child);
      var pk := pre + k;
      if Full(k) { UnderPath(pre, k); }
      if LenOf(y) != 0 && StrOf(y) == [] {
        ChildForm(Now(), y, t.child);
        calls := IterateNode(pk, y, t.child);
      } else if k[|k| - 1] == TERM {
        OneCall(pk, StrOf(y), t.child);
        var key := DecodeCompact(pk);
        calls := [(key, StrOf(y))];
      } else {
        ChildForm(Now(), y, t.child);
        calls := FetchNode(pk, y, t.child);
      }
    }

    method IterateSlots(pre: Path, currentNode: Item, ghost t: Tree) returns (calls: seq<(Bytes, Bytes)>)
      requires Ready() && t.Branch? && Opened(Now(), currentNode, t) && Node(t) && Solid(t)
      requires Partial(pre) && Paired(SlotEntries(t, pre, 0)) && (resident ==> Crisp(currentNode))
      modifies cache`nodes
      ensures Ready() && Grown(old(Now()), Now())
      ensures calls == Calls(SlotEntries(t, pre, 0))
      decreases t, 1
    {
      hide Sits, Leads, Grown, Opened, Coherent, Tame, Crisp, Calls, EntriesOf;
      GrownRefl(Now());
      CrispParts(currentNode);
      calls := [];
      ghost var w0 := Now();
      for i := 0 to 17
        invariant Ready() && Grown(w0, Now()) && w0 == old(Now()) && unchanged(cache`isDirty)
        invariant Paired(SlotEntries(t, pre, i))
        invariant calls + Calls(SlotEntries(t, pre, i)) == Calls(SlotEntries(t, pre, 0))
      {
        ghost var w1 := Now();
        SlotStep(t, pre, i);
        OpenedBranch(w0, currentNode, t, i);
        StillSits(w0, w1, GetAt(currentNode, i), t.kids[i]);
        var more := IterateSlot(pre, i, GetAt(currentNode, i), t.kids[i]);
        GrownTrans(w0, w1, Now());
        calls := calls + more;
      }
      SlotEnd(t, pre);
    }

    method IterateSlot(pre: Path, i: int, y: Item, ghost t: Tree) returns (calls: seq<(Bytes, Bytes)>)
      requires Ready() && 0 <= i < 17 && Sits(Now(), y, t) && Solid(t) && Partial(pre) && (resident ==> Crisp(y))
      requires (if i == 16 then t.Val? || t.Empty? else Node(t)) && Paired(EntriesOf(t, pre + [i]))
      modifies cache`nodes
      ensures Ready() && Grown(old(Now()), Now())
      ensures calls == Calls(EntriesOf(t, pre + [i]))
      decreases t, 4
    {
      hide Sits, Leads, Grown, Opened, Coherent, Tame, Crisp, EntriesOf, Calls;
      GrownRefl(Now());
      EntriesParts(t, pre + [i]);
      SitsLeads(Now(), y, t);
      SlotForm(Now(), y, t);
      var pk := pre + [i];
      if i == 16 && LenOf(y) != 0 {
        assert pk[..|pk| - 1] == pre;
        OneCall(pk, StrOf(y), t);
        var key := DecodeCompact(pk);
        calls := [(key, StrOf(y))];
      } else if LenOf(y) != 0 && StrOf(y) == [] {
        ChildForm(Now(), y, t);
        calls := IterateNode(pk, y, t);
      } else if StrOf(y) != [] {
        ChildForm(Now(), y, t);
        calls := FetchNode(pk, y, t);
      } else {
        calls := [];
      }
    }

    /** fetchNode: follow a hash. The empty string leads to nil, which has no entries. */
    method FetchNode(pk: Path, y: Item, ghost t: Tree) returns (calls: seq<(Bytes, Bytes)>)
      requires Ready() && Leads(Now(), y, t) && Node(t) && Solid(t) && Partial(pk) && (resident ==> Crisp(y))
      requires Paired(EntriesOf(t, pk))
      requires BytesOf(y) == [] ==> t.Empty? || t.Void?
      requires BytesOf(y) != [] ==> GetAt(y, 0).Nil? && StrOf(y) != []
      modifies cache`nodes
      ensures Ready() && Grown(old(Now()), Now())
      ensures calls == Calls(EntriesOf(t, pk))
      decreases t, 3
    {
      hide Leads, Opened, Denotes, IsRef, Crisp, EntriesOf, Calls, Tame, Coherent, Grown, Solid, Paired, Holds;
      Follow(Now(), y, t);
      EntriesParts(t, pk);
      CrispNil();
      NothingUnderEmpty(cache.env, cache.nodes, cache.db.data);
      CoherentGet(cache.env, cache.nodes, cache.db.data, BytesOf(y));
      var c := cache.Get(BytesOf(y));
      ghost var mid := Now();
      if BytesOf(y) != [] {
        Fetched(old(Now()), mid, c, y, t);
      } else {
        OpenedNothing(mid, c, t);
      }
      calls := IterateNode(pk, c, t);
      GrownTrans(old(Now()), mid, Now());
    }

    /** Each calls back exactly once per binding, with its key and value. */
    method Each() returns (calls: seq<(Bytes, Bytes)>)
      requires Live() && Solid(tree)
      modifies cache`nodes
      ensures Live() && (old(Valid()) ==> Valid())
      ensures calls == Calls(EntriesOf(tree, []))
      ensures forall key, v :: (key, v) in calls <==> key in binds && binds[key] == v
      ensures forall i, j :: 0 <= i < j < |calls| ==> calls[i].0 != calls[j].0
    {
      hide Leads, Coherent, Tame, Calls, EntriesOf, Represents, Crisp, Solid;
      RootForm(Now(), root, tree);
      EntriesPaired(tree, binds);
      calls := FetchNode([], root, tree);
      StillRooted(old(Now()), Now(), root, tree, binds);
      CallsExact(tree, binds);
    }

    /** The end of Update and Delete: a root that is not yet a string is hashed whatever its size. */
    method SetRoot(r: Item, ghost t: Tree)
      requires Ready() && Node(t) && (resident ==> Crisp(r))
      requires Sits(Now(), r, t) || (Leads(Now(), r, t) && Canon(r) == Canon(RootItem(cache.env, t)))
      modifies this`root, cache
      ensures Ready() && Grown(old(Now()), Now()) && (resident ==> Crisp(root))
      ensures Leads(Now(), root, t) && Canon(root) == Canon(RootItem(cache.env, t))
    {
      hide Sits, Leads, Grows, Tame, Built, Encode, HashOf, Coherent;
      GrownRefl(Now());
      SitsRoot(Now(), r, t);
      LeadsRoot(Now(), r, t);
      if r.Text? || r.Raw? {
        root := r;
      } else {
        PutSits(Now(), r, t);
        CoherentPut(cache.env, cache.nodes, cache.db.data, r);
        root := cache.PutValue(r, true);
      }
    }

    /** Update binds one key and leaves every other binding, the database and the last Sync alone. */
    method Update(key: Bytes, value: Bytes)
      requires Live() && value != [0] && Fits(cache.env, Written(tree, key, value))
      modifies this`root, this`tree, this`binds, this`tracked, cache
      ensures Live() && (old(Valid()) ==> Valid())
      ensures binds == old(binds)[key := value] && tree == Written(old(tree), key, value)
      ensures tracked == (old(tracked) || cache.isDirty)
    {
      hide Sits, Leads, Grown, Coherent, Tame, Represents, Insert, Canonical, Node, KeyPath, Fits, Canon, RootItem;
      var k := KeyPath(key);
      ghost var w0 := Now();
      RootSeen(w0, root, tree);
      ValueSits(w0, value);
      WholeSame(tree, binds);
      InsertNode(Whole(tree), k, value);
      RepresentsUpdate(Whole(tree), binds, key, value);
      var r := InsertState(root, k, Text(value), tree, Val(value));
      tree := Written(tree, key, value);
      binds := binds[key := value];
      SetRoot(r, tree);
      if cache.isDirty { tracked := true; }
    }

    /**
     * Delete unbinds one key; it never invents or changes a binding. With values of 32 bytes or more it loses none,
     * and in a canonical trie in memory it loses none exactly when no collapse on the way meets an inline child.
     * The key must be no shorter than the paths it meets.
     */
    method Delete(key: Bytes)
      requires Live() && NonEmpty(tree) && Guarded(tree, KeyPath(key)) && Removable(cache.env, Whole(tree), KeyPath(key))
      modifies this`root, this`tree, this`binds, this`tracked, cache
      ensures Live() && (old(Valid()) ==> Valid())
      ensures key !in binds && forall k :: k in binds ==> k in old(binds) && binds[k] == old(binds)[k]
      ensures Outcome(cache.env, Whole(old(tree)), KeyPath(key), tree)
      ensures binds == old(binds) - {key} <==> KeepsOthers(Whole(old(tree)), KeyPath(key), tree)
      ensures old(Thick(tree)) ==> binds == old(binds) - {key}
      ensures old(resident && Canonical(tree)) ==>
        && (binds == old(binds) - {key} <==> CollapseKeeps(cache.env, old(tree), KeyPath(key)))
        && (binds == old(binds) - {key} ==> Canonical(tree) && tree == Remove(old(tree), KeyPath(key)))
      ensures tracked == (old(tracked) || cache.isDirty)
    {
      hide Represents, Canonical, Node, KeyPath, NonEmpty, Thick, Guarded, CollapseKeeps, RemoveAs, Remove, Removable,
        RemoveBy, Allowed, Fits, Tame, Coherent, Denotes, Remaining, KeepsOthers;
      ghost var e, t, m, k := cache.env, tree, binds, KeyPath(key);
      ghost var picks := Unbind(key);
      DeleteFacts(e, t, m, key, picks, tree);
      if Thick(t) { ThickLoses(e, t, m, key, picks); }
      if old(resident) && Canonical(t) {
        CanonicalWhole(t);
        CanonicalLoses(e, t, m, key, tree);
      }
    }

    /** Delete up to what follows from the way it went. */
    method Unbind(key: Bytes) returns (ghost picks: seq<int>)
      requires Live() && NonEmpty(tree) && Guarded(tree, KeyPath(key)) && Removable(cache.env, Whole(tree), KeyPath(key))
      modifies this`root, this`tree, this`binds, this`tracked, cache
      ensures Live() && (old(Valid()) ==> Valid())
      ensures Allowed(cache.env, Whole(old(tree)), KeyPath(key), picks)
      ensures tree == RemoveBy(cache.env, Whole(old(tree)), KeyPath(key), picks)
      ensures binds == Remaining(old(binds), tree)
      ensures resident ==> tree == RemoveAs(cache.env, Whole(old(tree)), KeyPath(key))
      ensures tracked == (old(tracked) || cache.isDirty)
    {
      hide Sits, Leads, Grown, Coherent, Tame, Represents, Node, KeyPath, NonEmpty, Guarded, RemoveAs, Crisp, Removable,
        RemoveBy, Allowed, Fits, Remaining, Canon, RootItem;
      var k := KeyPath(key);
      ghost var t, m, s := tree, binds, Whole(tree);
      RootSeen(Now(), root, t);
      WholeSame(t, m);
      var r;
      r, picks := DeleteState(root, k, t);
      tree := RemoveBy(cache.env, s, k, picks);
      RemoveByNode(cache.env, s, k, picks);
      binds := Remaining(m, tree);
      RepresentsLess(cache.env, s, m, key, picks);
      StillRootedLeads(old(Now()), Now(), root, t);
      SetRoot(r, tree);
      if cache.isDirty { tracked := true; }
    }

    /** What others add to a shared database disturbs nothing. */
    twostate lemma Undisturbed()
      requires old(Live()) && unchanged(this) && unchanged(cache)
      requires Extends(old(cache.db.data), cache.db.data) && Addressed(cache.env, cache.db.data)
      ensures Live() && (old(Valid()) ==> Valid())
    {
      hide Tame, Coherent, Rooted, Fetch, Extends, Addressed;
      CoherentExtends(cache.env, cache.nodes, old(cache.db.data), cache.db.data);
      if !resident { RootedSame(old(Now()), Now(), root, tree, binds); }
      if old(Valid()) {
        RootedSame(View(cache.env, map[], old(cache.db.data)), View(cache.env, map[], cache.db.data), prevRoot, syncTree, syncBinds);
      }
    }

    twostate lemma StillValid()
      requires old(Valid()) && unchanged(this) && unchanged(cache)
      requires Extends(old(cache.db.data), cache.db.data) && Addressed(cache.env, cache.db.data)
      ensures Valid()
    {
      Undisturbed();
    }

    /** Sync writes the cache back, changes no answer, and only adds to the database. */
    method Sync()
      requires Live() && tracked
      modifies this`prevRoot, this`syncTree, this`syncBinds, this`resident, cache, cache.db
      ensures Valid()
      ensures syncBinds == binds && syncTree == tree && prevRoot == root
      ensures Extends(old(cache.db.data), cache.db.data)
      ensures resident <==> old(resident) && (old(cache.isDirty) ==> |old(cache.nodes)| <= 200)
    {
      hide Rooted, Tame, Coherent, SyncedNodes, SyncedData;
      AfterSync(Now(), cache.db.data, cache.isDirty, root, tree, binds);
      resident := resident && (cache.isDirty ==> |cache.nodes| <= 200);
      cache.Commit();
      prevRoot, syncTree, syncBinds := root, tree, binds;
    }

    /** Undo answers every Get as it was answered at the last Sync. */
    method Undo()
      requires Valid()
      modifies this`root, this`tree, this`binds, this`resident, cache
      ensures Valid()
      ensures binds == old(syncBinds) && tree == old(syncTree) && root == old(prevRoot)
    {
      UndoAgrees(cache.env, cache.nodes, cache.db.data);
      cache.Undo();
      resident := false;
      RootedSame(View(cache.env, map[], cache.db.data), Now(), prevRoot, syncTree, syncBinds);
      root, tree, binds := prevRoot, syncTree, syncBinds;
    }
  }

  /** What can be reached in the cache alone can be reached over any database. */
  lemma Unload(w: View, data: Data, r: Item, t: Tree, m: Binds)
    requires (w.data == map[] || w.data == data) && Tame(w.e) && Rooted(w, r, t, m)
    ensures Rooted(View(w.e, w.nodes, data), r, t, m)
  {
    if w.data == map[] {
      HoldsUnload(w.e, w.nodes, data, t);
    }
  }

  lemma {:induction false} HoldsUnload(e: Env, nodes: Nodes, data: Data, t: Tree)
    requires Holds(e, nodes, map[], t)
    ensures Holds(e, nodes, data, t)
    decreases t
  {
    match t {
      case Short(k, c) => HoldsUnload(e, nodes, data, c);
      case Branch(kids) =>
        forall i | 0 <= i < |kids| ensures Holds(e, nodes, data, kids[i]) { HoldsUnload(e, nodes, data, kids[i]); }
      case _ =>
    }
  }

  lemma CleanedFetch(nodes: Nodes)
    requires CrispNodes(nodes)
    ensures CrispNodes(Cleaned(nodes))
    ensures forall h :: Fetch(Cleaned(nodes), map[], h) == Fetch(nodes, map[], h)
  {
  }

  /** Sync keeps the trie reachable: over the new database, from it alone, and in a cache it has not emptied. */
  lemma AfterSync(w: View, data: Data, isDirty: bool, r: Item, t: Tree, m: Binds)
    requires (w.data == map[] || w.data == data) && Tame(w.e) && Coherent(w.e, w.nodes, data) && Tracked(w.nodes, isDirty)
    requires Rooted(w, r, t, m)
    ensures var nodes', data' := SyncedNodes(w.nodes, isDirty), SyncedData(w.nodes, data, isDirty);
            && Coherent(w.e, nodes', data') && Tracked(nodes', false) && Extends(data, data')
            && Rooted(View(w.e, nodes', data'), r, t, m)
            && Rooted(View(w.e, map[], data'), r, t, m)
            && (w.data == map[] && CrispNodes(w.nodes) && (isDirty ==> |w.nodes| <= 200) ==>
                  Rooted(View(w.e, nodes', map[]), r, t, m) && CrispNodes(nodes'))
  {
    hide Coherent, Tame, Rooted, Fetch;
    var nodes', data' := SyncedNodes(w.nodes, isDirty), SyncedData(w.nodes, data, isDirty);
    Unload(w, data, r, t, m);
    CommitAgrees(w.e, w.nodes, data, isDirty);
    RootedSame(View(w.e, w.nodes, data), View(w.e, nodes', data'), r, t, m);
    RootedSame(View(w.e, w.nodes, data), View(w.e, map[], data'), r, t, m);
    if w.data == map[] && CrispNodes(w.nodes) && (isDirty ==> |w.nodes| <= 200) {
      CleanedFetch(w.nodes);
      RootedSame(w, View(w.e, nodes', map[]), r, t, m);
    }
  }

  lemma RootedSame(w: View, w': View, r: Item, t: Tree, m: Binds)
    requires w'.e == w.e && Rooted(w, r, t, m) && Carries(w.nodes, w.data, w'.nodes, w'.data)
    ensures Rooted(w', r, t, m)
  {
    DenotesSame(w.e, w.nodes, w.data, w'.nodes, w'.data, r, t);
  }

  lemma ValueSits(w: View, v: Bytes)
    requires v != [0]
    ensures Sits(w, Text(v), Val(v))
  {
  }

  /** A void root is behind its hash. */
  lemma RootSeen(w: View, r: Item, t: Tree)
    requires Tame(w.e) && Leads(w, r, t) && Node(t) && Canon(r) == Canon(RootItem(w.e, t))
    ensures Seen(r, t) == if t.Void? then Branch(Blank()) else t
  {
    if t.Void? {
      RefForms(w.e, t);
      PlainCanon(r);
    }
  }

  /** A void trie, behind its hash, is taken for a branch without children. */
  function Whole(t: Tree): Tree {
    if t.Void? then Branch(Blank()) else t
  }

  /** The tree after Update. */
  function Written(t: Tree, key: Bytes, value: Bytes): Tree {
    Insert(Whole(t), KeyPath(key), Val(value))
  }

  /** A tree that Delete can leave. */
  ghost predicate Outcome(e: Env, t: Tree, key: Path, t': Tree) {
    exists picks :: Allowed(e, t, key, picks) && t' == RemoveBy(e, t, key, picks)
  }

  lemma WholeLevel(t: Tree, n: nat)
    ensures Level(t, n) && n >= 1 ==> Level(Whole(t), n)
    ensures (Thick(t) ==> Thick(Whole(t))) && (NonEmpty(t) ==> NonEmpty(Whole(t)))
  {
  }

  /** A void trie and a branch without children bind the same: nothing. */
  lemma WholeSame(t: Tree, m: Binds)
    requires Node(t) && Represents(t, m)
    ensures Node(Whole(t)) && Represents(Whole(t), m)
  {
  }

  /** What is left of a map under a tree that lost some of its keys. */
  ghost function Remaining(m: Binds, t: Tree): Binds {
    map key | key in m && Lookup(t, KeyPath(key)).Some? :: m[key]
  }

  lemma RepresentsLess(e: Env, t: Tree, m: Binds, key: Bytes, picks: seq<int>)
    requires Node(t) && Represents(t, m) && Allowed(e, t, KeyPath(key), picks)
    ensures var t' := RemoveBy(e, t, KeyPath(key), picks); Represents(t', Remaining(m, t')) && key !in Remaining(m, t')
  {
    hide RemoveBy, Allowed, Lookup, KeyPath, Full;
    var t' := RemoveBy(e, t, KeyPath(key), picks);
    var m' := Remaining(m, t');
    forall q | Full(q) ensures Lookup(t', q) == Bindings.At(m', q) {
      RemoveByLoses(e, t, KeyPath(key), picks, q);
      AtRemaining(t, m, t', q);
    }
    RemoveByLoses(e, t, KeyPath(key), picks, KeyPath(key));
  }

  lemma AtRemaining(t: Tree, m: Binds, t': Tree, q: Path)
    requires Full(q) && Lookup(t, q) == Bindings.At(m, q) && (Lookup(t', q) == None || Lookup(t', q) == Lookup(t, q))
    ensures Lookup(t', q) == Bindings.At(Remaining(m, t'), q)
  {
    if |q| % 2 == 1 { KeyPathKeyOf(q); }
  }

  lemma RemainingExactly(e: Env, t: Tree, m: Binds, key: Bytes, picks: seq<int>)
    requires Node(t) && Represents(t, m) && Allowed(e, t, KeyPath(key), picks)
    ensures var t' := RemoveBy(e, t, KeyPath(key), picks);
      Remaining(m, t') == m - {key} <==> KeepsOthers(t, KeyPath(key), t')
  {
    hide RemoveBy, Allowed, Lookup, KeyPath, Full;
    var t' := RemoveBy(e, t, KeyPath(key), picks);
    var m' := Remaining(m, t');
    RepresentsLess(e, t, m, key, picks);
    if m' == m - {key} {
      forall q | Full(q) && q != KeyPath(key) ensures Lookup(t', q) == Lookup(t, q) {
        AtOther(m, key, q);
      }
    }
    if KeepsOthers(t, KeyPath(key), t') {
      forall k | k in m && k != key ensures k in m' { KeptKey(t, m, key, t', k); }
      assert m'.Keys == (m - {key}).Keys;
    }
  }

  lemma DeleteFacts(e: Env, t: Tree, m: Binds, key: Bytes, picks: seq<int>, t': Tree)
    requires Node(t) && Represents(t, m) && Allowed(e, Whole(t), KeyPath(key), picks)
    requires t' == RemoveBy(e, Whole(t), KeyPath(key), picks)
    ensures key !in Remaining(m, t') && forall k :: k in Remaining(m, t') ==> k in m && Remaining(m, t')[k] == m[k]
    ensures Remaining(m, t') == m - {key} <==> KeepsOthers(Whole(t), KeyPath(key), t')
    ensures Outcome(e, Whole(t), KeyPath(key), t')
  {
    WholeSame(t, m);
    RepresentsLess(e, Whole(t), m, key, picks);
    RemainingExactly(e, Whole(t), m, key, picks);
  }

  lemma AtOther(m: Binds, key: Bytes, q: Path)
    requires Full(q) && q != KeyPath(key)
    ensures Bindings.At(m - {key}, q) == Bindings.At(m, q)
  {
    if |q| % 2 == 1 { KeyPathKeyOf(q); }
  }

  lemma KeptKey(t: Tree, m: Binds, key: Bytes, t': Tree, k: Bytes)
    requires Represents(t, m) && KeepsOthers(t, KeyPath(key), t') && k in m && k != key
    ensures k in Remaining(m, t')
  {
    if KeyPath(k) == KeyPath(key) { KeyPathInjective(k, key); }
    KeyOfKeyPath(k);
    assert Lookup(t, KeyPath(k)) == Bindings.At(m, KeyPath(k));
  }

  lemma ThickLoses(e: Env, t: Tree, m: Binds, key: Bytes, picks: seq<int>)
    requires Tame(e) && Node(t) && Thick(t) && Fits(e, t) && Represents(t, m)
    requires Removable(e, Whole(t), KeyPath(key)) && Allowed(e, Whole(t), KeyPath(key), picks)
    ensures KeepsOthers(Whole(t), KeyPath(key), RemoveBy(e, Whole(t), KeyPath(key), picks))
  {
    if t.Void? {
      forall q | Full(q) && q != KeyPath(key) ensures Lookup(RemoveBy(e, Whole(t), KeyPath(key), picks), q) == None {
        WholeSame(t, m);
        RemoveByLoses(e, Whole(t), KeyPath(key), picks, q);
      }
    } else {
      ThickWhole(e, t, KeyPath(key), picks);
      RemovalKeepsExactly(e, t, KeyPath(key), picks);
    }
  }

  lemma CanonicalWhole(t: Tree)
    requires Canonical(t)
    ensures Whole(t) == t
  {
  }

  lemma CanonicalLoses(e: Env, t: Tree, m: Binds, key: Bytes, t': Tree)
    requires Canonical(t) && Node(t) && t' == RemoveAs(e, t, KeyPath(key))
    ensures KeepsOthers(t, KeyPath(key), t') <==> CollapseKeeps(e, t, KeyPath(key))
    ensures CollapseKeeps(e, t, KeyPath(key)) ==> Canonical(t') && t' == Remove(t, KeyPath(key))
  {
    DeleteKeepsExactly(e, t, KeyPath(key));
    if CollapseKeeps(e, t, KeyPath(key)) { DeleteGone(e, t, KeyPath(key), t'); }
  }

  /** What InsertState returns for the root is its hash, or the node itself when it is short. */
  lemma StillRootedLeads(w: View, w': View, r: Item, t: Tree)
    requires Tame(w.e) && Grown(w, w') && Leads(w, r, t)
    ensures Leads(w', r, t)
  {
    StillLeads(w, w', r, t);
  }

  lemma LeadsRoot(w: View, r: Item, t: Tree)
    requires Tame(w.e) && Node(t)
    ensures Leads(w, r, t) && Canon(r) == Canon(RootItem(w.e, t)) ==> r.Text? || r.Raw?
  {
    if Leads(w, r, t) && Canon(r) == Canon(RootItem(w.e, t)) {
      PlainCanon(r);
      if !t.Empty? { RefForms(w.e, t); }
    }
  }

  lemma SitsRoot(w: View, r: Item, t: Tree)
    requires Tame(w.e) && Node(t)
    ensures Sits(w, r, t) ==> Leads(w, r, t)
    ensures Sits(w, r, t) && (r.Text? || r.Raw?) ==> Canon(r) == Canon(RootItem(w.e, t))
    ensures Sits(w, r, t) && !(r.Text? || r.Raw?) ==> Built(w, r, t) && (forall h :: h == HashOf(w.e, t) ==> Canon(Raw(h)) == Canon(RootItem(w.e, t)))
  {
    if Sits(w, r, t) {
      PlainNode(w.e, t);
      PlainCanon(r);
      if !t.Empty? { RefForms(w.e, t); }
    }
  }

  // ----------------------------------------------------------- facts about iteration

  /** The calls for entries: paths turned back into keys. */
  function Calls(es: Entries): seq<(Bytes, Bytes)> {
    seq(|es|, i requires 0 <= i < |es| => (Pack(Body(es[i].0)), es[i].1))
  }

  lemma EntriesParts(t: Tree, pre: Path)
    ensures t.Short? ==> EntriesOf(t, pre) == EntriesOf(t.child, pre + t.path)
    ensures t.Branch? ==> EntriesOf(t, pre) == SlotEntries(t, pre, 0)
    ensures t.Empty? || t.Void? ==> Calls(EntriesOf(t, pre)) == []
    ensures t.Val? ==> EntriesOf(t, pre) == [(pre, t.v)]
  {
  }

  lemma SolidChild(t: Tree)
    requires Node(t) && Solid(t)
    ensures !t.Val?
    ensures t.Short? ==>
              && t.path != [] && Solid(t.child) && (Full(t.path) <==> t.path[|t.path| - 1] == TERM)
              && (if Full(t.path) then t.child.Val? else Partial(t.path) && Node(t.child))
              && (Node(t.child) || t.child.Val?)
  {
  }

  lemma OneCall(pk: Path, v: Bytes, t: Tree)
    requires t == Val(v)
    ensures Paired(EntriesOf(t, pk)) ==> |pk| % 2 == 1
    ensures Calls(EntriesOf(t, pk)) == [(Pack(Body(pk)), v)]
  {
    if Paired(EntriesOf(t, pk)) { assert EntriesOf(t, pk)[0].0 == pk; }
  }

  /** Every path is that of whole bytes, and a terminator. */
  predicate Paired(es: Entries) {
    forall i :: 0 <= i < |es| ==> |es[i].0| % 2 == 1
  }

  lemma EntriesPaired(t: Tree, m: Binds)
    requires Solid(t) && Node(t) && Represents(t, m)
    ensures Paired(EntriesOf(t, []))
  {
    var es := EntriesOf(t, []);
    EntriesExact(t, []);
    forall i | 0 <= i < |es| ensures |es[i].0| % 2 == 1 {
      assert es[i] in es && es[i].0[0..] == es[i].0;
      BoundIsFull(t, es[i].0);
      assert Lookup(t, es[i].0) == Bindings.At(m, es[i].0);
    }
  }

  lemma SlotStep(t: Tree, pre: Path, i: nat)
    requires t.Branch? && i < 17 == |t.kids|
    ensures Paired(SlotEntries(t, pre, i)) ==> Paired(EntriesOf(t.kids[i], pre + [i])) && Paired(SlotEntries(t, pre, i + 1))
    ensures Calls(SlotEntries(t, pre, i)) == Calls(EntriesOf(t.kids[i], pre + [i])) + Calls(SlotEntries(t, pre, i + 1))
  {
    var a, b := EntriesOf(t.kids[i], pre + [i]), SlotEntries(t, pre, i + 1);
    PairedConcat(a, b);
  }

  lemma PairedConcat(a: Entries, b: Entries)
    ensures Paired(a + b) ==> Paired(a) && Paired(b)
  {
    if Paired(a + b) {
      forall i | 0 <= i < |a| ensures |a[i].0| % 2 == 1 { assert (a + b)[i] == a[i]; }
      forall i | 0 <= i < |b| ensures |b[i].0| % 2 == 1 { assert (a + b)[|a| + i] == b[i]; }
    }
  }

  lemma SlotEnd(t: Tree, pre: Path)
    requires t.Branch?
    ensures Calls(SlotEntries(t, pre, 17)) == []
  {
  }

  lemma CrispFork()
    ensures Crisp(Text([]))
  {
  }

  lemma FitsForkParts(e: Env, k: Path, c: Tree, key: Path, sub: Tree, m: nat)
    requires m < |k| && m < |key| && 0 <= k[m] < 17 && 0 <= key[m] < 17 && k[m] != key[m] && Fits(e, Fork(k, c, key, sub, m))
    ensures Fits(e, Place(k[m + 1..], c)) && Fits(e, Place(key[m + 1..], sub))
  {
    var kids := Fork(k, c, key, sub, m).kids;
    assert kids[k[m]] == Place(k[m + 1..], c) && kids[key[m]] == Place(key[m + 1..], sub);
  }

  lemma FitsInsertSlot(e: Env, kids: seq<Tree>, key: Path, sub: Tree)
    requires key != [] && 0 <= key[0] < |kids| && Fits(e, Insert(Branch(kids), key, sub))
    ensures Insert(Branch(kids), key, sub) == Branch(kids[key[0] := Insert(kids[key[0]], key[1..], sub)])
    ensures Fits(e, Insert(kids[key[0]], key[1..], sub))
  {
    var kids' := Insert(Branch(kids), key, sub).kids;
    assert kids'[key[0]] == Insert(kids[key[0]], key[1..], sub);
  }

  lemma CrispNil()
    ensures Crisp(Nil)
  {
  }

  lemma OpenedNothing(w: View, c: Item, t: Tree)
    requires c.Nil? && (t.Empty? || t.Void?)
    ensures Opened(w, c, t)
  {
  }

  /** A child that looks like a list is an inline node; one that looks like a string is a hash or nothing. */
  lemma ChildForm(w: View, y: Item, t: Tree)
    requires Tame(w.e) && Sits(w, y, t) && Node(t)
    ensures LenOf(y) != 0 && StrOf(y) == [] ==> Opened(w, y, t)
    ensures !(LenOf(y) != 0 && StrOf(y) == []) ==>
              (BytesOf(y) == [] ==> t.Empty? || t.Void?) && (BytesOf(y) != [] ==> GetAt(y, 0).Nil? && StrOf(y) != [])
  {
    SitsLeads(w, y, t);
    Follow(w, y, t);
    PlainCanon(y);
  }

  lemma SlotForm(w: View, y: Item, t: Tree)
    requires Tame(w.e) && Sits(w, y, t) && Solid(t) && (Node(t) || t.Val?)
    ensures t.Val? ==> StrOf(y) == t.v && LenOf(y) != 0 && StrOf(y) != []
    ensures t.Empty? ==> LenOf(y) == 0 && StrOf(y) == []
    ensures t.Void? ==> LenOf(y) == 0 && StrOf(y) == []
    ensures t.Short? || t.Branch? ==> LenOf(y) != 0
  {
    PlainCanon(y);
    SitsLeads(w, y, t);
    if t.Val? || t.Empty? {
      StoredValue(w, y, t);
    } else {
      Follow(w, y, t);
      if t.Void? { VoidSits(w, y); }
    }
  }

  lemma RootForm(w: View, r: Item, t: Tree)
    requires Tame(w.e) && Leads(w, r, t) && Node(t) && Canon(r) == Canon(RootItem(w.e, t))
    ensures (BytesOf(r) == [] ==> t.Empty? || t.Void?) && (BytesOf(r) != [] ==> GetAt(r, 0).Nil? && StrOf(r) != [])
    ensures Partial([])
  {
    PlainCanon(r);
    if !t.Empty? { RefForms(w.e, t); }
  }

  /** The calls are the bindings of the map, each once. */
  lemma CallsExact(t: Tree, m: Binds)
    requires Solid(t) && Node(t) && Represents(t, m)
    ensures var calls := Calls(EntriesOf(t, []));
            && (forall key, v :: (key, v) in calls <==> key in m && m[key] == v)
            && (forall i, j :: 0 <= i < j < |calls| ==> calls[i].0 != calls[j].0)
  {
    var es := EntriesOf(t, []);
    var calls := Calls(es);
    forall i | 0 <= i < |es| ensures IsCall(es[i], calls[i], m) { EntryCall(t, m, i); }
    EntriesExact(t, []);
    forall key, v ensures (key, v) in calls <==> key in m && m[key] == v {
      if (key, v) in calls {
        var i :| 0 <= i < |calls| && calls[i] == (key, v);
        assert IsCall(es[i], calls[i], m);
      }
      if key in m && m[key] == v {
        var i := BindingCall(t, m, key);
        assert calls[i] == (key, v);
      }
    }
    forall i, j | 0 <= i < j < |calls| ensures calls[i].0 != calls[j].0 {
      assert IsCall(es[i], calls[i], m) && IsCall(es[j], calls[j], m);
    }
  }

  ghost predicate IsCall(e: (Path, Bytes), c: (Bytes, Bytes), m: Binds) {
    KeyPath(c.0) == e.0 && c.1 == e.1 && c.0 in m && m[c.0] == c.1
  }

  lemma EntryCall(t: Tree, m: Binds, i: int)
    requires Solid(t) && Node(t) && Represents(t, m) && 0 <= i < |EntriesOf(t, [])|
    ensures IsCall(EntriesOf(t, [])[i], Calls(EntriesOf(t, []))[i], m)
  {
    var e := EntriesOf(t, [])[i];
    EntriesExact(t, []);
    assert e in EntriesOf(t, []) && e.0[0..] == e.0 && Lookup(t, e.0) == Some(e.1);
    BoundIsFull(t, e.0);
    assert Bindings.At(m, e.0) == Some(e.1);
    KeyPathKeyOf(e.0);
    assert Body(e.0) == e.0[..|e.0| - 1];
  }

  lemma BindingCall(t: Tree, m: Binds, key: Bytes) returns (i: int)
    requires Solid(t) && Node(t) && Represents(t, m) && key in m
    ensures 0 <= i < |EntriesOf(t, [])| && Calls(EntriesOf(t, []))[i] == (key, m[key])
  {
    var q, es := KeyPath(key), EntriesOf(t, []);
    KeyOfKeyPath(key);
    EntriesExact(t, []);
    assert q[0..] == q && Below((q, m[key]), [], t);
    i :| 0 <= i < |es| && es[i] == (q, m[key]);
    assert Body(q) == q[..|q| - 1];
  }

  lemma NonEmptyChild(t: Tree)
    requires t.Short? && NonEmpty(t)
    ensures NonEmpty(t.child)
  {
  }

  lemma RemovableShort(e: Env, t: Tree, key: Path)
    requires t.Short? && key != [] && t.path != key && Starts(t.path, key) && Removable(e, t, key)
    ensures Removable(e, t.child, key[|t.path|..])
  {
  }

  lemma RemovableSlot(e: Env, kids: seq<Tree>, key: Path)
    requires key != [] && 0 <= key[0] < |kids| && Removable(e, Branch(kids), key)
    ensures Removable(e, kids[key[0]], key[1..])
  {
  }

  /** Whichever way the deletion went, its result is in play. */
  lemma RemovableResult(e: Env, t: Tree, key: Path, picks: seq<int>)
    requires key != [] && Removable(e, t, key)
    requires if t.Short? then t.path != key && Starts(t.path, key) && Allowed(e, t.child, key[|t.path|..], picks) else Allowed(e, t, key, picks)
    ensures t.Short? ==> Fits(e, Join(t.path, RemoveBy(e, t.child, key[|t.path|..], picks)))
    ensures Fits(e, RemoveBy(e, t, key, picks))
  {
    assert Allowed(e, t, key, picks);
  }

  lemma DeleteSlot(t: Tree, kids: seq<Tree>, key: Path)
    requires (t.Branch? && kids == t.kids) || (t.Void? && kids == Blank())
    requires Node(t) && NonEmpty(t) && Full(key) && Guarded(t, key) && 0 <= key[0] < 17
    ensures NonEmpty(kids[key[0]]) && (key[1..] != [] ==> Guarded(kids[key[0]], key[1..]))
  {
  }

  lemma DeletedKids(e: Env, t: Tree, kids: seq<Tree>, key: Path, inner: seq<int>)
    requires (t.Branch? && kids == t.kids) || (t.Void? && kids == Blank())
    requires Node(t) && NonEmpty(t) && Full(key) && 0 <= key[0] < 17
    ensures var kids' := kids[key[0] := RemoveBy(e, kids[key[0]], key[1..], inner)];
      Node(Branch(kids')) && NonEmpty(Branch(kids'))
  {
    var x := RemoveBy(e, kids[key[0]], key[1..], inner);
    SuffixFull(key, 0);
    assert NonEmpty(Branch(kids)) && NonEmpty(kids[key[0]]);
    if |key| > 1 {
      SuffixFull(key, 1);
      RemoveByNode(e, kids[key[0]], key[1..], inner);
    }
    ReplaceKid(kids, key[0], x, |key|);
  }

  lemma PicksCons(e: Env, kids: seq<Tree>, key: Path, amount: int, inner: seq<int>)
    requires key != [] && 0 <= key[0] < |kids| == 17 && Allowed(e, kids[key[0]], key[1..], inner)
    requires var kids' := kids[key[0] := RemoveBy(e, kids[key[0]], key[1..], inner)]; amount >= 0 ==> Alone(kids', amount)
    ensures var kids' := kids[key[0] := RemoveBy(e, kids[key[0]], key[1..], inner)];
      && Allowed(e, Branch(kids), key, [amount] + inner)
      && RemoveBy(e, Branch(kids), key, [amount] + inner) == CloseBranch(e, kids', amount)
  {
    assert Pick([amount] + inner) == amount && Later([amount] + inner) == inner;
  }

  lemma SlotSits(w: View, w': View, xs: seq<Item>, slot: Item, kids: seq<Tree>, i: int, x: Tree)
    requires Tame(w.e) && Grown(w, w') && |xs| == 17 == |kids| && 0 <= i < 17
    requires forall j :: 0 <= j < 17 ==> Sits(w, xs[j], kids[j])
    requires Sits(w', slot, x) || (slot == xs[i] && x == kids[i])
    ensures var xs', kids' := xs[i := slot], kids[i := x]; forall j :: 0 <= j < 17 ==> Sits(w', xs'[j], kids'[j])
  {
    hide Sits, Tame, Grown;
    forall j | 0 <= j < 17 ensures Sits(w', xs[j], kids[j]) { StillSits(w, w', xs[j], kids[j]); }
  }

  lemma SlotsAlone(w: View, xs: seq<Item>, kids: seq<Tree>, amount: int)
    requires Tame(w.e) && Node(Branch(kids)) && NonEmpty(Branch(kids)) && |xs| == 17 && amount < 17
    requires forall j :: 0 <= j < 17 ==> Sits(w, xs[j], kids[j])
    requires amount >= 0 ==> forall j :: 0 <= j < 17 && j != amount ==> xs[j] == Text([])
    ensures amount >= 0 ==> Alone(kids, amount)
  {
    hide Sits, Tame;
    if amount >= 0 {
      forall j | 0 <= j < 17 && j != amount ensures kids[j] == Empty {
        BlankSlot(w, xs[j], kids[j]);
      }
    }
  }

  /** A slot that holds "" is a slot without a child. */
  lemma BlankSlot(w: View, x: Item, t: Tree)
    requires Tame(w.e) && Sits(w, x, t) && NonEmpty(t)
    ensures x == Text([]) ==> t == Empty
    ensures Crisp(x) && t == Empty ==> x == Text([])
  {
    PlainCanon(x);
    if t.Val? {
      StoredValue(w, x, t);
    } else if !t.Empty? {
      RefForms(w.e, t);
      EncodeEmptyList();
    }
  }

  lemma CrispCollapse(w: View, xs: seq<Item>, kids: seq<Tree>, amount: int)
    requires Tame(w.e) && Node(Branch(kids)) && NonEmpty(Branch(kids)) && |xs| == 17
    requires forall j :: 0 <= j < 17 ==> Sits(w, xs[j], kids[j]) && Crisp(xs[j])
    requires Counted(xs, amount)
    ensures CollapseAs(w.e, kids) == if amount >= 0 then CollapseAt(w.e, kids, amount) else Branch(kids)
  {
    hide Sits, Crisp, Tame, CollapseAt;
    forall j | 0 <= j < 17 ensures kids[j] == Empty <==> xs[j] == Text([]) {
      BlankSlot(w, xs[j], kids[j]);
    }
    CountedOnly(w.e, xs, kids, amount);
  }

  lemma CountedOnly(e: Env, xs: seq<Item>, kids: seq<Tree>, amount: int)
    requires |kids| == 17 && Counted(xs, amount) && forall j :: 0 <= j < 17 ==> (kids[j] == Empty <==> xs[j] == Text([]))
    ensures CollapseAs(e, kids) == if amount >= 0 then CollapseAt(e, kids, amount) else Branch(kids)
  {
    hide CollapseAt;
    if amount >= 0 {
      assert Only(kids, amount);
      forall j | Only(kids, j) ensures j == amount {}
    } else if amount == -2 {
      var a, b :| 0 <= a < b < 17 && xs[a] != Text([]) && xs[b] != Text([]);
      forall j ensures !Only(kids, j) {
        assert kids[a] != Empty && kids[b] != Empty;
      }
    }
  }

  ghost predicate Counted(xs: seq<Item>, amount: int) {
    && |xs| == 17 && -2 <= amount < 17
    && (amount >= 0 ==> xs[amount] != Text([]) && forall j :: 0 <= j < 17 && j != amount ==> xs[j] == Text([]))
    && (amount == -1 ==> forall j :: 0 <= j < 17 ==> xs[j] == Text([]))
    && (amount == -2 ==> exists a, b :: 0 <= a < b < 17 && xs[a] != Text([]) && xs[b] != Text([]))
  }

  /** The counting loop of deleteState: the one slot that is not "", -1 for none and -2 for several. */
  method CountSlots(xs: seq<Item>) returns (amount: int)
    requires |xs| == 17
    ensures Counted(xs, amount)
  {
    amount := -1;
    for i := 0 to 17
      invariant -2 <= amount < i
      invariant amount >= 0 ==> xs[amount] != Text([]) && forall j :: 0 <= j < i && j != amount ==> xs[j] == Text([])
      invariant amount == -1 ==> forall j :: 0 <= j < i ==> xs[j] == Text([])
      invariant amount == -2 ==> exists a, b :: 0 <= a < b < i && xs[a] != Text([]) && xs[b] != Text([])
    {
      if xs[i] != Text([]) {
        if amount == -1 {
          amount := i;
        } else {
          assert amount >= 0 ==> 0 <= amount < i < 17 && xs[amount] != Text([]) && xs[i] != Text([]);
          amount := -2;
        }
      }
    }
  }

  lemma CutSits(w: View, x: Item, t: Tree)
    requires Tame(w.e) && Sits(w, x, t)
    ensures Sits(w, Text(StrOf(x)), Cut(w.e, t))
  {
    hide Encode, Holds, Tame, Node, Fits;
    PlainCanon(x);
    if t.Empty? || t.Val? {
      StoredValue(w, x, t);
      PlainText(StrOf(x), t);
    } else {
      RefForms(w.e, t);
      LongCanon(HashOf(w.e, t));
      EmptySits(w);
    }
  }

  lemma PlainText(s: Bytes, t: Tree)
    ensures |s| != 1 || s[0] != 0 ==> Plain(Text(s))
    ensures Canon(Text(s)) == Parsed(s)
  {
  }

  lemma CrispEmpty()
    ensures Crisp(Text([])) && Crisp(List([]))
  {
  }

  lemma CrispParts(x: Item)
    requires true
    ensures Crisp(x) && x.List? ==> forall i :: 0 <= i < |x.items| ==> Crisp(x.items[i])
    ensures Crisp(x) ==> forall i :: Crisp(GetAt(x, i))
  {
  }

  lemma CrispList(xs: seq<Item>)
    ensures (forall i :: 0 <= i < |xs| ==> Crisp(xs[i])) ==> Crisp(List(xs))
  {
  }

  lemma CrispShort(enc: Bytes, x: Item)
    ensures Crisp(x) ==> Crisp(List([Text(enc), x]))
  {
  }

  lemma CopyCrisp(currentNode: Item, xs: seq<Item>)
    requires |xs| == 17
    requires forall i :: 0 <= i < 17 ==> xs[i] == if GetAt(currentNode, i).Nil? then Text([]) else GetAt(currentNode, i)
    ensures Crisp(currentNode) ==> forall i :: 0 <= i < 17 ==> Crisp(xs[i])
  {
  }

  /** The copying loop of InsertState and deleteState: slots that are missing become the empty string. */
  method CopyBranch(currentNode: Item) returns (newNode: seq<Item>)
    ensures |newNode| == 17
    ensures forall i :: 0 <= i < 17 ==>
              newNode[i] == if GetAt(currentNode, i).Nil? then Text([]) else GetAt(currentNode, i)
  {
    newNode := EmptyStringSlice(17);
    for i := 0 to 17
      invariant |newNode| == 17
      invariant forall j :: 0 <= j < 17 ==>
                  newNode[j] == if j >= i || GetAt(currentNode, j).Nil? then Text([]) else GetAt(currentNode, j)
    {
      var cpy := GetAt(currentNode, i);
      if !cpy.Nil? {
        newNode := newNode[i := cpy];
      }
    }
  }

  lemma CopySits(w: View, currentNode: Item, newNode: seq<Item>, t: Tree)
    requires (t.Branch? || t.Void?) && Node(t) && Opened(w, currentNode, t) && |newNode| == 17
    requires forall i :: 0 <= i < 17 ==>
               newNode[i] == if GetAt(currentNode, i).Nil? then Text([]) else GetAt(currentNode, i)
    ensures var kids := if t.Void? then Blank() else t.kids;
            forall i :: 0 <= i < 17 ==> Sits(w, newNode[i], kids[i])
  {
    hide Sits;
    EmptySits(w);
    if t.Branch? {
      forall i | 0 <= i < 17 ensures Sits(w, newNode[i], t.kids[i]) {
        OpenedBranch(w, currentNode, t, i);
        SitsPlain(w, GetAt(currentNode, i), t.kids[i]);
      }
    }
  }

  lemma ShortNode(t: Tree, key: Path, sub: Tree)
    requires t.Short? && Node(t) && Full(key) && sub.Val?
    ensures t.path != [] && PathOk(t.path) && (Partial(t.path) ==> Node(t.child)) && Node(Short(key, sub))
    ensures Node(Short(t.path, t.child))
  {
  }

  lemma InsertShortIs(t: Tree, key: Path, sub: Tree)
    requires t.Short? && Node(t) && Full(key)
    ensures t.path == key ==> Insert(t, key, sub) == Short(key, sub)
    ensures t.path != key ==>
              var m := Match(key, t.path);
              m < |key| && Insert(t, key, sub) ==
              Place(key[..m], if m == |t.path| then Insert(t.child, key[m..], sub) else Fork(t.path, t.child, key, sub, m))
  {
    if t.path != key { InsertSplits(t.path, key); }
  }

  lemma InsertDeepNode(c: Tree, key: Path, sub: Tree)
    requires Node(c) && Full(key) && sub.Val?
    ensures Node(Insert(c, key, sub))
  {
    InsertNode(c, key, sub.v);
  }

  /** The trie as InsertState sees it: behind a hash, an empty list looks like a branch without children. */
  function Seen(node: Item, t: Tree): Tree {
    if t.Void? && LenOf(node) != 0 then Branch(Blank()) else t
  }

  lemma InsertStateIs(node: Item, t: Tree, key: Path, sub: Tree)
    requires sub.Val? && (key == [] || (Full(key) && Node(t)))
    ensures key == [] ==> Insert(Seen(node, t), key, sub) == sub
    ensures key != [] && LenOf(node) == 0 && (t.Empty? || t.Void?) ==> Insert(Seen(node, t), key, sub) == Short(key, sub)
    ensures key != [] ==> Node(Short(key, sub)) && !t.Val?
    ensures LenOf(node) != 0 ==> Seen(node, t) == if t.Void? then Branch(Blank()) else t
  {
  }

  lemma StillSits(w: View, w': View, x: Item, t: Tree)
    requires Tame(w.e) && Grown(w, w') && Sits(w, x, t)
    ensures Sits(w', x, t)
  {
    hide Tame;
    SitsLeads(w, x, t);
    StillLeads(w, w', x, t);
  }

  /** A root that leads to a tree in play with the given bindings. */
  ghost predicate Rooted(w: View, r: Item, t: Tree, m: Binds) {
    && Leads(w, r, t)
    && Node(t)
    && Canon(r) == Canon(RootItem(w.e, t))
    && Represents(t, m)
  }

  lemma StillRooted(w: View, w': View, r: Item, t: Tree, m: Binds)
    requires Tame(w.e) && Grown(w, w') && Rooted(w, r, t, m)
    ensures Rooted(w', r, t, m)
  {
    StillLeads(w, w', r, t);
  }

  lemma GrownRefl(w: View)
    ensures Grown(w, w)
  {
  }

  lemma Fetched(w: View, w': View, c: Item, x: Item, t: Tree)
    requires Tame(w.e) && Leads(w, x, t) && Node(t) && !t.Empty? && Stored(w.e, w.nodes, w.data, t) && Holds(w.e, w.nodes, w.data, t)
    requires w'.e == w.e && w'.data == w.data
    requires forall h :: Fetch(w'.nodes, w'.data, h) == Fetch(w.nodes, w.data, h)
    requires Plain(c) && Known(c) == Fetch(w'.nodes, w'.data, HashOf(w.e, t))
    ensures Grown(w, w') && Opened(w', c, t)
  {
    HoldsSame(w.e, w.nodes, w.data, w'.nodes, w'.data, t);
    Open(w', c, t);
  }

  lemma BelowSlot0(t: Tree, key: Path)
    requires Node(t) && t.Branch? && Full(key)
    ensures 0 <= key[0] < 17
    ensures if key[1..] == [] then t.kids[key[0]].Val? || t.kids[key[0]].Empty? else Full(key[1..]) && Node(t.kids[key[0]])
  {
    SuffixFull(key, 0);
    if |key| > 1 { SuffixFull(key, 1); }
  }

  lemma ReadParts(t: Tree, key: Path)
    ensures Node(t) ==> !t.Val?
    ensures key == [] && t.Val? ==> Read(t, key) == t.v
    ensures Node(t) && Full(key) && t.Short? ==> Read(t, key) == if Starts(t.path, key) then Read(t.child, key[|t.path|..]) else []
    ensures Node(t) && Full(key) && t.Branch? ==> 0 <= key[0] < 17 && Read(t, key) == Read(t.kids[key[0]], key[1..])
    ensures t.Void? || t.Empty? ==> Read(t, key) == []
  {
    if Full(key) { SuffixFull(key, 0); }
  }

  /** Below a two-item node that matches, either the key ends in a leaf or a full key is left. */
  lemma BelowPath(t: Tree, key: Path)
    requires Node(t) && t.Short? && Full(key) && Starts(t.path, key)
    ensures var rest := key[|t.path|..];
            if rest == [] then t.child.Val? || t.child.Empty? else Full(rest) && Node(t.child)
  {
    PartialBelow(t, key);
  }
}