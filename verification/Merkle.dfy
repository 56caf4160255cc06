/**
 * Trees as the items ethtrie/trie.go puts into its cache and database: hex-prefix paths,
 * children inlined below 32 bytes and replaced by their hash from there on.
 */
module Merkle {
  import opened Bytes
  import opened HexPrefix
  import opened Rlp
  import opened Options
  import opened Tree

  // ----------------------------------------------- accessors of ethutil/value.go

  /** Str: a byte converts to a string as a code point, so from 0x80 on it takes two bytes. */
  function StrOf(x: Item): Bytes {
    match x
    case Raw(bs) => bs
    case Text(s) => s
    case U8(b) => if b < 0x80 then [b] else [0xc0 + b / 64, 0x80 + b % 64]
    case _ => []
  }

  function BytesOf(x: Item): Bytes {
    match x
    case Raw(bs) => bs
    case Text(s) => s
    case U8(b) => [b]
    case Big(n) => BigBytes(Abs(n))
    case _ => []
  }

  function LenOf(x: Item): nat {
    match x
    case List(items) => |items|
    case _ => |BytesOf(x)|
  }

  function GetAt(x: Item, i: int): Item {
    if x.List? && 0 <= i < |x.items| then x.items[i] else Nil
  }

  // ------------------------------------------------------- items found in tries

  /** Strings, reloaded strings and lists of them; never the single byte 0. */
  predicate Plain(x: Item) {
    match x
    case Nil => false
    case Big(_) => false
    case U8(b) => 0 < b < 0x80
    case Raw(bs) => bs != [0]
    case Text(s) => s != [0]
    case List(items) => forall i :: 0 <= i < |items| ==> Plain(items[i])
  }

  lemma {:induction false} PlainZeroFree(x: Item)
    requires Plain(x)
    ensures ZeroFree(x)
  {
    if x.List? {
      forall i | 0 <= i < |x.items| ensures ZeroFree(x.items[i]) { PlainZeroFree(x.items[i]); }
    }
  }

  /** Being reloaded changes nothing that the trie code looks at except the Go type. */
  lemma {:induction false} PlainCanon(x: Item)
    requires Plain(x)
    ensures Plain(Canon(x)) && Canon(Canon(x)) == Canon(x) && Encode(Canon(x)) == Encode(x)
    ensures StrOf(Canon(x)) == StrOf(x) && LenOf(Canon(x)) == LenOf(x) && Canon(x).List? == x.List?
  {
    PlainZeroFree(x);
    CanonStable(x);
    match x {
      case U8(b) => assert BigBytes(b) == BigBytes(0) + [b] == [b];
      case List(items) =>
        forall i | 0 <= i < |items| ensures Plain(Canon(items[i])) { PlainCanon(items[i]); }
      case _ =>
    }
  }

  lemma SameAccess(x: Item, y: Item)
    requires Plain(x) && Plain(y) && Canon(x) == Canon(y)
    ensures StrOf(x) == StrOf(y) && LenOf(x) == LenOf(y) && x.List? == y.List? && Encode(x) == Encode(y)
    ensures x.List? ==> forall i :: 0 <= i < |x.items| ==> Plain(x.items[i]) && Canon(x.items[i]) == Canon(y.items[i])
  {
    PlainCanon(x);
    PlainCanon(y);
    if x.List? {
      forall i | 0 <= i < |x.items| ensures Canon(x.items[i]) == Canon(y.items[i]) {
        assert CanonAll(x.items)[i] == CanonAll(y.items)[i];
      }
    }
  }

  // ------------------------------------------------------------- trees as items

  /**
   * The hash function, and the byte strings that are stored under their hashes: the nodes of the tries
   * at hand, and contract code, which shares the database with them.
   */
  datatype Env = Env(hash: Bytes -> Bytes, blobs: set<Bytes>)

  function Hashed(e: Env, x: Item): Item {
    var enc := Encode(x);
    if |enc| >= 32 then Raw(e.hash(enc)) else x
  }

  function PathText(k: Path): Item {
    Text(if k == [] then [] else CompactEncode(k))
  }

  function NodeItem(e: Env, t: Tree): (x: Item)
    ensures t.Short? ==> x.List? && |x.items| == 2
    ensures t.Branch? ==> x.List? && |x.items| == |t.kids|
    decreases t, 0
  {
    match t
    case Empty => Text([])
    case Void => List([])
    case Val(v) => Text(v)
    case Short(k, c) => List([PathText(k), Ref(e, c)])
    case Branch(kids) => List(seq(|kids|, i requires 0 <= i < |kids| => Ref(e, kids[i])))
  }

  /** What the trie stores in a parent for a child: itself when short, its hash otherwise. */
  function Ref(e: Env, t: Tree): Item
    decreases t, 1
  {
    if t.Empty? || t.Val? then NodeItem(e, t) else Hashed(e, NodeItem(e, t))
  }

  function HashOf(e: Env, t: Tree): Bytes {
    e.hash(Encode(NodeItem(e, t)))
  }

  /** The root is hashed even when it is short. */
  function RootItem(e: Env, t: Tree): Item {
    if t.Empty? then Text([]) else Raw(HashOf(e, t))
  }

  predicate Listed(e: Env, t: Tree) {
    Encode(NodeItem(e, t)) in e.blobs
  }

  /** Every node of the tree is among the environment's strings, and no value is the single byte 0. */
  predicate Fits(e: Env, t: Tree) {
    match t
    case Empty => true
    case Void => Listed(e, t)
    case Val(v) => v != [0]
    case Short(k, c) => Listed(e, t) && Fits(e, c)
    case Branch(kids) => Listed(e, t) && forall i :: 0 <= i < |kids| ==> Fits(e, kids[i])
  }

  ghost predicate InPlay(e: Env, t: Tree) {
    (t.Short? || t.Branch? || t.Void?) && Node(t) && Fits(e, t)
  }

  /**
   * Among the strings stored under their hashes the hash function does not collide. It gives at least
   * 32 bytes for each of them, and each is a slice that Go can hold.
   */
  ghost predicate Tame(e: Env) {
    && (forall x :: x in e.blobs ==> |x| < GO_MAX_LEN && 32 <= |e.hash(x)|)
    && (forall x, y :: x in e.blobs && y in e.blobs && e.hash(x) == e.hash(y) ==> x == y)
  }

  lemma HashInjective(e: Env, s: Tree, t: Tree)
    requires Tame(e) && InPlay(e, s) && InPlay(e, t) && HashOf(e, s) == HashOf(e, t)
    ensures Canon(NodeItem(e, s)) == Canon(NodeItem(e, t))
  {
    EncodeInjective(NodeItem(e, s), NodeItem(e, t));
  }

  lemma {:induction false} PlainNode(e: Env, t: Tree)
    requires Tame(e) && (Node(t) || t.Val?) && Fits(e, t)
    ensures Plain(NodeItem(e, t)) && Plain(Ref(e, t))
    decreases t
  {
    hide Tame, Encode, CompactEncode;
    match t {
      case Short(k, c) =>
        PlainNode(e, c);
        CompactNotZero(k);
      case Branch(kids) =>
        forall i | 0 <= i < 17 ensures Plain(Ref(e, kids[i])) { PlainNode(e, kids[i]); }
      case _ =>
    }
    if !t.Empty? && !t.Val? { LongHash(e, t); }
  }

  lemma LongHash(e: Env, t: Tree)
    requires Tame(e) && Listed(e, t)
    ensures |HashOf(e, t)| >= 32 && |Encode(NodeItem(e, t))| < GO_MAX_LEN
  {
  }

  // -------------------------------------------------------- cache over database

  datatype CacheNode = CacheNode(value: Item, dirty: bool)
  type Nodes = map<Bytes, CacheNode>
  type Data = map<Bytes, Bytes>

  /** NewValueFromBytes: nil for no data; None where Decode would panic. */
  function Load(d: Bytes): Option<Item> {
    if d == [] then Some(Nil)
    else
      match Decode(d, 0)
      case Ok(x, _) => Some(x)
      case Panic => None
  }

  /** A value up to the Go types that reloading changes; nil, and what is no node, lead nowhere. */
  function Known(x: Item): Option<Item> {
    if Plain(x) then Some(Canon(x)) else None
  }

  function Fetch(nodes: Nodes, data: Data, h: Bytes): Option<Item> {
    if h in nodes then Known(nodes[h].value)
    else if h in data && Load(data[h]).Some? then Known(Load(data[h]).value)
    else None
  }

  predicate Stored(e: Env, nodes: Nodes, data: Data, t: Tree) {
    Fetch(nodes, data, HashOf(e, t)) == Some(Canon(NodeItem(e, t)))
  }

  predicate Kept(e: Env, nodes: Nodes, data: Data, t: Tree) {
    |Encode(NodeItem(e, t))| >= 32 ==> Stored(e, nodes, data, t)
  }

  /** Every node of t that is referred to by hash can be fetched. */
  predicate Holds(e: Env, nodes: Nodes, data: Data, t: Tree) {
    match t
    case Short(k, c) => Holds(e, nodes, data, c) && Kept(e, nodes, data, t)
    case Branch(kids) =>
      (forall i :: 0 <= i < |kids| ==> Holds(e, nodes, data, kids[i])) && Kept(e, nodes, data, t)
    case _ => true
  }

  /** The item x is what a parent stores for t. */
  predicate IsRef(e: Env, nodes: Nodes, data: Data, x: Item, t: Tree) {
    Plain(x) && Holds(e, nodes, data, t) && Canon(x) == Canon(Ref(e, t))
  }

  /** The item x leads to t: it is what a parent stores, or a hash where t is stored. */
  predicate Denotes(e: Env, nodes: Nodes, data: Data, x: Item, t: Tree) {
    || IsRef(e, nodes, data, x, t)
    || (&& Plain(x)
        && Holds(e, nodes, data, t)
        && (t.Short? || t.Branch? || t.Void?)
        && Canon(x) == Raw(HashOf(e, t))
        && Stored(e, nodes, data, t))
  }

  /** A cache can change under a tree only by gaining nodes or by rewriting a node with itself. */
  ghost predicate Grows(e: Env, nodes: Nodes, nodes': Nodes, data: Data) {
    forall h ::
      || Fetch(nodes, data, h) == None
      || Fetch(nodes', data, h) == Fetch(nodes, data, h)
      || exists t :: InPlay(e, t) && h == HashOf(e, t) && Fetch(nodes', data, h) == Some(Canon(NodeItem(e, t)))
  }

  lemma StoredGrows(e: Env, nodes: Nodes, nodes': Nodes, data: Data, t: Tree)
    requires Tame(e) && Grows(e, nodes, nodes', data) && InPlay(e, t) && Stored(e, nodes, data, t)
    ensures Stored(e, nodes', data, t)
  {
    var h := HashOf(e, t);
    if Fetch(nodes', data, h) != Fetch(nodes, data, h) {
      var s :| InPlay(e, s) && h == HashOf(e, s) && Fetch(nodes', data, h) == Some(Canon(NodeItem(e, s)));
      HashInjective(e, s, t);
    }
  }

  lemma KeptGrows(e: Env, nodes: Nodes, nodes': Nodes, data: Data, t: Tree)
    requires Tame(e) && Grows(e, nodes, nodes', data) && InPlay(e, t) && Kept(e, nodes, data, t)
    ensures Kept(e, nodes', data, t)
  {
    if Stored(e, nodes, data, t) { StoredGrows(e, nodes, nodes', data, t); }
  }

  lemma {:induction false} HoldsGrows(e: Env, nodes: Nodes, nodes': Nodes, data: Data, t: Tree)
    requires Tame(e) && Grows(e, nodes, nodes', data) && Holds(e, nodes, data, t)
    requires (Node(t) || t.Val?) && Fits(e, t)
    ensures Holds(e, nodes', data, t)
    decreases t
  {
    hide Grows, Tame, Kept, Full, Partial, NodeItem, Encode;
    match t {
      case Short(k, c) =>
        HoldsGrows(e, nodes, nodes', data, c);
        KeptGrows(e, nodes, nodes', data, t);
      case Branch(kids) =>
        forall i | 0 <= i < |kids| ensures Holds(e, nodes', data, kids[i]) {
          HoldsGrows(e, nodes, nodes', data, kids[i]);
        }
        KeptGrows(e, nodes, nodes', data, t);
      case _ =>
    }
  }

  lemma DenotesGrows(e: Env, nodes: Nodes, nodes': Nodes, data: Data, x: Item, t: Tree)
    requires Tame(e) && Grows(e, nodes, nodes', data) && Denotes(e, nodes, data, x, t)
    requires (Node(t) || t.Val?) && Fits(e, t)
    ensures Denotes(e, nodes', data, x, t)
    ensures IsRef(e, nodes, data, x, t) ==> IsRef(e, nodes', data, x, t)
  {
    HoldsGrows(e, nodes, nodes', data, t);
    if Canon(x) != Canon(Ref(e, t)) {
      StoredGrows(e, nodes, nodes', data, t);
    }
  }

  lemma GrowsTrans(e: Env, a: Nodes, b: Nodes, c: Nodes, data: Data)
    requires Grows(e, a, b, data) && Grows(e, b, c, data)
    ensures Grows(e, a, c, data)
  {
  }

  /** Putting a node of a trie in play into the cache. */
  lemma PutGrows(e: Env, nodes: Nodes, data: Data, x: Item, t: Tree)
    requires Tame(e) && InPlay(e, t) && Plain(x) && Plain(NodeItem(e, t)) && Canon(x) == Canon(NodeItem(e, t))
    ensures Encode(x) == Encode(NodeItem(e, t))
    ensures var nodes' := nodes[HashOf(e, t) := CacheNode(x, true)];
            Grows(e, nodes, nodes', data) && Stored(e, nodes', data, t)
  {
    hide Plain, Tame, Encode, InPlay;
    SameAccess(x, NodeItem(e, t));
  }

  /** What an item that leads to t looks like from outside. */
  lemma DenotesLen(e: Env, nodes: Nodes, data: Data, x: Item, t: Tree)
    requires Tame(e) && Denotes(e, nodes, data, x, t) && Node(t) && Fits(e, t)
    ensures t.Short? || t.Branch? ==> LenOf(x) > 0
    ensures t.Empty? ==> LenOf(x) == 0 && StrOf(x) == []
    ensures t.Void? ==> (LenOf(x) == 0 && StrOf(x) == []) || (LenOf(x) >= 32 && !x.List?)
    ensures x.List? ==> Canon(x) == Canon(NodeItem(e, t))
    ensures !x.List? && !t.Empty? ==> Canon(x) == Raw(HashOf(e, t)) && |StrOf(x)| >= 32 && Stored(e, nodes, data, t)
  {
    hide Encode, Fetch, Plain;
    PlainCanon(x);
    if t.Empty? {
    } else {
      RefForms(e, t);
      if t.Void? { EncodeEmptyList(); }
      if !t.Void? { HoldsKept(e, nodes, data, t); }
    }
  }

  lemma HoldsKept(e: Env, nodes: Nodes, data: Data, t: Tree)
    requires Holds(e, nodes, data, t) && (t.Short? || t.Branch?)
    ensures Kept(e, nodes, data, t)
  {
    hide Kept;
  }

  /** A reference is the node itself, a non-empty list unless void, or a hash of at least 32 bytes. */
  lemma RefForms(e: Env, t: Tree)
    requires Tame(e) && (t.Short? || t.Branch? || t.Void?) && Node(t) && Fits(e, t)
    ensures Canon(Raw(HashOf(e, t))) == Raw(HashOf(e, t)) && |HashOf(e, t)| >= 32
    ensures Ref(e, t) == if |Encode(NodeItem(e, t))| >= 32 then Raw(HashOf(e, t)) else NodeItem(e, t)
    ensures Canon(NodeItem(e, t)).List?
    ensures LenOf(Canon(NodeItem(e, t))) == match t case Short(_, _) => 2 case Branch(_) => 17 case _ => 0
  {
    hide Encode;
    assert InPlay(e, t);
    LongCanon(HashOf(e, t));
  }

  lemma EncodeEmptyList()
    ensures Encode(List([])) == [0xc0]
  {
  }

  lemma LongCanon(h: Bytes)
    requires |h| >= 32
    ensures Canon(Raw(h)) == Raw(h) && Plain(Raw(h))
  {
  }

  // ------------------------------------------------------ commit, undo, agreement

  /** What is stored under the hash of a string is that string; other keys may hold anything. */
  predicate Addressed(e: Env, data: Data) {
    [] !in data && forall x :: x in e.blobs && e.hash(x) in data ==> data[e.hash(x)] == x
  }

  /**
   * Clean nodes agree with the database, and dirty ones are filed under their hashes. Nothing is
   * stored under the empty key, which an empty root leads to.
   */
  predicate Coherent(e: Env, nodes: Nodes, data: Data) {
    && Addressed(e, data) && ([] in nodes ==> nodes[[]] == CacheNode(Nil, false))
    && (forall h :: h in nodes && h != [] ==> NodeOk(e, nodes[h], data, h))
  }

  predicate NodeOk(e: Env, x: CacheNode, data: Data, h: Bytes) {
    && Plain(x.value)
    && if x.dirty then Encode(x.value) in e.blobs && h == e.hash(Encode(x.value))
       else Known(x.value) == Fetch(map[], data, h)
  }

  /** The cache's flag knows of every dirty node. Trie.Copy does not keep this. */
  predicate Tracked(nodes: Nodes, isDirty: bool) {
    forall h :: h in nodes && nodes[h].dirty ==> isDirty
  }

  /** A database changes by gaining entries only. */
  predicate Extends(data: Data, data': Data) {
    forall h :: h in data ==> h in data' && data'[h] == data[h]
  }

  /** What can be fetched before can be fetched after. */
  ghost predicate Carries(nodes: Nodes, data: Data, nodes': Nodes, data': Data) {
    forall h :: Fetch(nodes, data, h).Some? ==> Fetch(nodes', data', h) == Fetch(nodes, data, h)
  }

  lemma CoherentAddressed(e: Env, nodes: Nodes, data: Data)
    requires Coherent(e, nodes, data)
    ensures Addressed(e, data)
  {
  }

  lemma NothingUnderEmpty(e: Env, nodes: Nodes, data: Data)
    requires Coherent(e, nodes, data)
    ensures [] !in data && ([] in nodes ==> nodes[[]].value == Nil)
  {
  }

  /** Another trie's entries in a shared database disturb nothing. */
  lemma CoherentExtends(e: Env, nodes: Nodes, data: Data, data': Data)
    requires Coherent(e, nodes, data) && Extends(data, data') && Addressed(e, data')
    ensures Coherent(e, nodes, data') && Carries(nodes, data, nodes, data') && Carries(map[], data, map[], data')
  {
    forall h | h in nodes && h != [] ensures NodeOk(e, nodes[h], data', h) {
      assert NodeOk(e, nodes[h], data, h);
    }
  }

  lemma ExtendsRefl(data: Data)
    ensures Extends(data, data)
  {
  }

  lemma ExtendsTrans(a: Data, b: Data, c: Data)
    requires Extends(a, b) && Extends(b, c)
    ensures Extends(a, c)
  {
  }

  /** The database once Commit has written the dirty nodes outside `todo`. */
  function CommittedBut(nodes: Nodes, data: Data, todo: set<Bytes>): Data {
    map h | h in data.Keys + nodes.Keys && (h in data || (nodes[h].dirty && h !in todo)) ::
      if h in nodes && nodes[h].dirty && h !in todo then Encode(nodes[h].value) else data[h]
  }

  function CleanedBut(nodes: Nodes, todo: set<Bytes>): Nodes {
    map h | h in nodes :: if h in todo then nodes[h] else nodes[h].(dirty := false)
  }

  lemma CommitStep(nodes: Nodes, data: Data, todo: set<Bytes>, key: Bytes)
    requires key in todo && key in nodes
    ensures CleanedBut(nodes, todo - {key}) == CleanedBut(nodes, todo)[key := nodes[key].(dirty := false)]
    ensures CommittedBut(nodes, data, todo - {key}) ==
            if nodes[key].dirty then CommittedBut(nodes, data, todo)[key := Encode(nodes[key].value)]
            else CommittedBut(nodes, data, todo)
  {
  }

  lemma CommitStart(nodes: Nodes, data: Data)
    ensures CommittedBut(nodes, data, nodes.Keys) == data && CleanedBut(nodes, nodes.Keys) == nodes
  {
  }

  /** The database after Commit. */
  function Committed(nodes: Nodes, data: Data): Data {
    CommittedBut(nodes, data, {})
  }

  /** The cache after Commit: clean, or emptied when it has grown past 200 nodes. */
  function Cleaned(nodes: Nodes): Nodes {
    CleanedBut(nodes, {})
  }

  function SyncedNodes(nodes: Nodes, isDirty: bool): Nodes {
    if !isDirty then nodes else if |nodes| > 200 then map[] else Cleaned(nodes)
  }

  function SyncedData(nodes: Nodes, data: Data, isDirty: bool): Data {
    if isDirty then Committed(nodes, data) else data
  }

  /** The cache after Undo. */
  function Reverted(nodes: Nodes): Nodes {
    map h | h in nodes && !nodes[h].dirty :: nodes[h]
  }

  lemma FetchCommitted(e: Env, nodes: Nodes, data: Data, h: Bytes)
    requires Tame(e) && Coherent(e, nodes, data)
    ensures Fetch(map[], Committed(nodes, data), h) == Fetch(nodes, data, h)
    ensures Fetch(Cleaned(nodes), Committed(nodes, data), h) == Fetch(nodes, data, h)
  {
    if h in nodes && h != [] {
      assert NodeOk(e, nodes[h], data, h);
      if nodes[h].dirty {
        var x := nodes[h].value;
        PlainCanon(x);
        RoundTripAt(Encode(x), 0, x);
        assert Encode(x)[0..|Encode(x)|] == Encode(x);
      }
    }
  }

  lemma CommittedExtends(e: Env, nodes: Nodes, data: Data)
    requires Tame(e) && Coherent(e, nodes, data)
    ensures Extends(data, Committed(nodes, data)) && Addressed(e, Committed(nodes, data))
  {
    var data' := Committed(nodes, data);
    forall h | h in data ensures h in data' && data'[h] == data[h] {
      if h in nodes && nodes[h].dirty { assert NodeOk(e, nodes[h], data, h); }
    }
    forall x | x in e.blobs && e.hash(x) in data' ensures data'[e.hash(x)] == x {
      var h := e.hash(x);
      if h in nodes && nodes[h].dirty { assert NodeOk(e, nodes[h], data, h); }
    }
  }

  /** Commit loses nothing, even when it empties the cache, and leaves nothing to commit. */
  lemma CommitAgrees(e: Env, nodes: Nodes, data: Data, isDirty: bool)
    requires Tame(e) && Coherent(e, nodes, data) && Tracked(nodes, isDirty)
    ensures var nodes', data' := SyncedNodes(nodes, isDirty), SyncedData(nodes, data, isDirty);
            && (forall h :: Fetch(map[], data', h) == Fetch(nodes, data, h))
            && (forall h :: Fetch(nodes', data', h) == Fetch(nodes, data, h))
            && Coherent(e, nodes', data') && Tracked(nodes', false) && Extends(data, data')
  {
    hide Tame, Encode;
    var nodes', data' := SyncedNodes(nodes, isDirty), SyncedData(nodes, data, isDirty);
    CommittedExtends(e, nodes, data);
    forall h
      ensures Fetch(map[], data', h) == Fetch(nodes, data, h) && Fetch(nodes', data', h) == Fetch(nodes, data, h)
    {
      FetchCommitted(e, nodes, data, h);
      if h in nodes && h != [] { assert NodeOk(e, nodes[h], data, h); }
    }
    forall h | h in nodes' && h != [] ensures NodeOk(e, nodes'[h], data', h) {
      assert NodeOk(e, nodes[h], data, h);
      assert Fetch(nodes', data', h) == Fetch(map[], data', h);
    }
  }

  /** After Undo only what the database holds can be reached. */
  lemma UndoAgrees(e: Env, nodes: Nodes, data: Data)
    requires Coherent(e, nodes, data)
    ensures forall h :: Fetch(Reverted(nodes), data, h) == Fetch(map[], data, h)
    ensures Coherent(e, Reverted(nodes), data) && Tracked(Reverted(nodes), false)
  {
    var nodes' := Reverted(nodes);
    forall h ensures Fetch(nodes', data, h) == Fetch(map[], data, h) {
      if h in nodes' && h != [] { assert NodeOk(e, nodes[h], data, h); }
    }
    forall h | h in nodes' && h != [] ensures NodeOk(e, nodes'[h], data, h) {
      assert NodeOk(e, nodes[h], data, h);
    }
  }

  /** Remembering what the database holds under a key changes nothing that can be fetched. */
  lemma CoherentGet(e: Env, nodes: Nodes, data: Data, h: Bytes)
    requires Coherent(e, nodes, data) && (h == [] || Fetch(nodes, data, h).Some?)
    ensures h in data ==> Load(data[h]).Some? || h in nodes
    ensures h !in nodes ==>
      var v := if h in data then Load(data[h]).value else Nil;
      var nodes' := nodes[h := CacheNode(v, false)];
      Coherent(e, nodes', data) && forall g :: Fetch(nodes', data, g) == Fetch(nodes, data, g)
  {
    if h !in nodes {
      var nodes' := nodes[h := CacheNode(if h in data then Load(data[h]).value else Nil, false)];
      forall g | g in nodes' && g != [] ensures NodeOk(e, nodes'[g], data, g) {
        if g != h { assert NodeOk(e, nodes[g], data, g); }
      }
    }
  }

  lemma {:induction false} HoldsSame(e: Env, nodes: Nodes, data: Data, nodes': Nodes, data': Data, t: Tree)
    requires Carries(nodes, data, nodes', data')
    requires Holds(e, nodes, data, t)
    ensures Holds(e, nodes', data', t)
    decreases t
  {
    match t {
      case Short(k, c) => HoldsSame(e, nodes, data, nodes', data', c);
      case Branch(kids) =>
        forall i | 0 <= i < |kids| ensures Holds(e, nodes', data', kids[i]) {
          HoldsSame(e, nodes, data, nodes', data', kids[i]);
        }
      case _ =>
    }
  }

  lemma DenotesSame(e: Env, nodes: Nodes, data: Data, nodes': Nodes, data': Data, x: Item, t: Tree)
    requires Carries(nodes, data, nodes', data')
    requires Denotes(e, nodes, data, x, t)
    ensures Denotes(e, nodes', data', x, t)
  {
    hide Plain;
    HoldsSame(e, nodes, data, nodes', data', t);
  }

  // ------------------------------------------------- taking nodes apart and building them

  /** The item x is the node t itself. */
  predicate IsNode(e: Env, nodes: Nodes, data: Data, x: Item, t: Tree) {
    Plain(x) && Holds(e, nodes, data, t) && Canon(x) == Canon(NodeItem(e, t))
  }

  lemma ShortParts(e: Env, nodes: Nodes, data: Data, x: Item, t: Tree)
    requires Tame(e) && t.Short? && Node(t) && Fits(e, t) && IsNode(e, nodes, data, x, t)
    ensures LenOf(x) == 2
    ensures StrOf(GetAt(x, 0)) == CompactEncode(t.path) != [] && CompactDecode(StrOf(GetAt(x, 0))) == t.path
    ensures IsRef(e, nodes, data, GetAt(x, 1), t.child)
  {
    PlainNode(e, t);
    SameAccess(x, NodeItem(e, t));
    SameAccess(x.items[0], PathText(t.path));
    CompactRoundTrip(t.path);
    CompactNotZero(t.path);
  }

  lemma BranchParts(e: Env, nodes: Nodes, data: Data, x: Item, t: Tree)
    requires Tame(e) && t.Branch? && Node(t) && Fits(e, t) && IsNode(e, nodes, data, x, t)
    ensures LenOf(x) == 17
    ensures forall i :: 0 <= i < 17 ==> IsRef(e, nodes, data, GetAt(x, i), t.kids[i])
  {
    PlainNode(e, t);
    SameAccess(x, NodeItem(e, t));
  }

  lemma IsShort(e: Env, nodes: Nodes, data: Data, k: Path, x: Item, c: Tree)
    requires Tame(e) && Node(Short(k, c)) && Fits(e, Short(k, c)) && IsRef(e, nodes, data, x, c)
    ensures var y := List([Text(CompactEncode(k)), x]);
            Plain(y) && Plain(NodeItem(e, Short(k, c))) && Canon(y) == Canon(NodeItem(e, Short(k, c)))
  {
    hide Tame, Encode, CompactEncode, Holds;
    var t := Short(k, c);
    PlainNode(e, t);
    var y := List([Text(CompactEncode(k)), x]);
    assert Plain(y.items[0]) && Plain(y.items[1]) by { CompactNotZero(k); }
    assert CanonAll(y.items) == CanonAll(NodeItem(e, t).items);
  }

  lemma IsBranch(e: Env, nodes: Nodes, data: Data, xs: seq<Item>, kids: seq<Tree>)
    requires Tame(e) && Node(Branch(kids)) && Fits(e, Branch(kids))
    requires |xs| == 17 && forall i :: 0 <= i < 17 ==> IsRef(e, nodes, data, xs[i], kids[i])
    ensures Plain(List(xs)) && Plain(NodeItem(e, Branch(kids))) && Canon(List(xs)) == Canon(NodeItem(e, Branch(kids)))
  {
    hide Holds, Tame;
    PlainNode(e, Branch(kids));
    assert CanonAll(xs) == CanonAll(NodeItem(e, Branch(kids)).items);
  }

  ghost predicate PartsHeld(e: Env, nodes: Nodes, data: Data, t: Tree) {
    match t
    case Short(k, c) => Holds(e, nodes, data, c)
    case Branch(kids) => forall i :: 0 <= i < |kids| ==> Holds(e, nodes, data, kids[i])
    case _ => true
  }

  lemma PartsGrow(e: Env, nodes: Nodes, nodes': Nodes, data: Data, t: Tree)
    requires Tame(e) && InPlay(e, t) && PartsHeld(e, nodes, data, t) && Grows(e, nodes, nodes', data)
    ensures PartsHeld(e, nodes', data, t)
  {
    hide Grows, Tame, Holds;
    match t {
      case Short(k, c) => HoldsGrows(e, nodes, nodes', data, c);
      case Branch(kids) =>
        forall i | 0 <= i < |kids| ensures Holds(e, nodes', data, kids[i]) {
          HoldsGrows(e, nodes, nodes', data, kids[i]);
        }
      case _ =>
    }
  }

  lemma HoldsWhole(e: Env, nodes: Nodes, data: Data, t: Tree)
    requires PartsHeld(e, nodes, data, t) && Kept(e, nodes, data, t)
    ensures Holds(e, nodes, data, t)
  {
    hide Kept;
  }

  /** After Put, the item it returns is what a parent stores for the node. */
  lemma PutIsRef(e: Env, nodes: Nodes, data: Data, x: Item, t: Tree)
    requires Tame(e) && InPlay(e, t) && PartsHeld(e, nodes, data, t)
    requires Plain(x) && Plain(NodeItem(e, t)) && Canon(x) == Canon(NodeItem(e, t))
    ensures Encode(x) == Encode(NodeItem(e, t))
    ensures |Encode(x)| < 32 ==> IsRef(e, nodes, data, x, t)
    ensures var nodes' := nodes[HashOf(e, t) := CacheNode(x, true)];
            && Grows(e, nodes, nodes', data)
            && Stored(e, nodes', data, t)
            && Holds(e, nodes', data, t)
            && Plain(Raw(HashOf(e, t)))
            && (|Encode(x)| >= 32 ==> IsRef(e, nodes', data, Raw(HashOf(e, t)), t))
  {
    hide Plain, Tame, Encode, Grows, Fetch, Canon, Node, Fits, Holds, PartsHeld, NodeItem;
    RefForms(e, t);
    LongCanon(HashOf(e, t));
    PutGrows(e, nodes, data, x, t);
    var nodes' := nodes[HashOf(e, t) := CacheNode(x, true)];
    PartsGrow(e, nodes, nodes', data, t);
    HoldsWhole(e, nodes', data, t);
    if |Encode(x)| < 32 { HoldsWhole(e, nodes, data, t); }
  }

  // ------------------------------------------------------------ what a trie can see

  datatype View = View(e: Env, nodes: Nodes, data: Data)

  /** The item leads to t. */
  ghost predicate Leads(w: View, x: Item, t: Tree) {
    Fits(w.e, t) && (Node(t) || t.Val?) && Denotes(w.e, w.nodes, w.data, x, t)
  }

  /** The item is what a parent stores for t. */
  ghost predicate Sits(w: View, x: Item, t: Tree) {
    Fits(w.e, t) && (Node(t) || t.Val?) && IsRef(w.e, w.nodes, w.data, x, t)
  }

  /** The item is the node t, laid open: its path and what it stores for its children. */
  ghost predicate Opened(w: View, x: Item, t: Tree) {
    match t
    case Short(k, c) =>
      && LenOf(x) == 2 && k != []
      && StrOf(GetAt(x, 0)) == CompactEncode(k) != [] && CompactDecode(StrOf(GetAt(x, 0))) == k
      && Sits(w, GetAt(x, 1), c)
    case Branch(kids) =>
      LenOf(x) == 17 && |kids| == 17 && forall i :: 0 <= i < 17 ==> Sits(w, GetAt(x, i), kids[i])
    case _ => LenOf(x) == 0
  }

  /** The same view with more nodes in the cache. */
  ghost predicate Grown(w: View, w': View) {
    w'.e == w.e && w'.data == w.data && Grows(w.e, w.nodes, w'.nodes, w.data)
  }

  lemma GrownTrans(a: View, b: View, c: View)
    requires Grown(a, b) && Grown(b, c)
    ensures Grown(a, c)
  {
    GrowsTrans(a.e, a.nodes, b.nodes, c.nodes, a.data);
  }

  lemma SitsLeads(w: View, x: Item, t: Tree)
    requires Sits(w, x, t)
    ensures Leads(w, x, t)
  {
  }

  lemma StillLeads(w: View, w': View, x: Item, t: Tree)
    requires Tame(w.e) && Grown(w, w') && Leads(w, x, t)
    ensures Leads(w', x, t)
    ensures Sits(w, x, t) ==> Sits(w', x, t)
  {
    DenotesGrows(w.e, w.nodes, w'.nodes, w.data, x, t);
  }

  lemma Open(w: View, x: Item, t: Tree)
    requires Tame(w.e) && Node(t) && Fits(w.e, t) && !t.Empty?
    requires IsNode(w.e, w.nodes, w.data, x, t)
    ensures Opened(w, x, t)
  {
    match t {
      case Short(_, _) => ShortParts(w.e, w.nodes, w.data, x, t);
      case Branch(_) => BranchParts(w.e, w.nodes, w.data, x, t);
      case Void =>
        PlainNode(w.e, t);
        SameAccess(x, NodeItem(w.e, t));
    }
  }

  /** What getNode can tell of a reference before it follows it. */
  lemma Follow(w: View, x: Item, t: Tree)
    requires Tame(w.e) && Leads(w, x, t) && Node(t)
    ensures !GetAt(x, 0).Nil? || StrOf(x) == [] ==> Opened(w, x, t)
    ensures GetAt(x, 0).Nil? && StrOf(x) != [] ==>
              && |StrOf(x)| >= 32 && BytesOf(x) == HashOf(w.e, t) && !t.Empty?
              && Stored(w.e, w.nodes, w.data, t) && Holds(w.e, w.nodes, w.data, t)
    ensures LenOf(x) == 0 ==> (t.Empty? || t.Void?) && StrOf(x) == []
    ensures t.Empty? ==> LenOf(x) == 0
    ensures !x.Nil?
  {
    DenotesLen(w.e, w.nodes, w.data, x, t);
    PlainNode(w.e, t);
    if x.List? && !t.Empty? { Open(w, x, t); }
    PlainCanon(x);
  }

  /** A value read at the end of a key. */
  lemma StoredValue(w: View, x: Item, t: Tree)
    requires Tame(w.e) && Leads(w, x, t) && (t.Val? || t.Empty?)
    ensures StrOf(x) == if t.Val? then t.v else []
  {
    PlainCanon(x);
    PlainNode(w.e, t);
    PlainCanon(NodeItem(w.e, t));
  }

  lemma OpenedShort(w: View, x: Item, t: Tree)
    requires Opened(w, x, t) && t.Short?
    ensures LenOf(x) == 2 && t.path != []
    ensures StrOf(GetAt(x, 0)) == CompactEncode(t.path) != []
    ensures CompactDecode(StrOf(GetAt(x, 0))) == t.path
    ensures Sits(w, GetAt(x, 1), t.child) && Leads(w, GetAt(x, 1), t.child)
  {
  }

  lemma OpenedBranch(w: View, x: Item, t: Tree, i: int)
    requires Opened(w, x, t) && t.Branch? && 0 <= i < 17
    ensures LenOf(x) == 17 && |t.kids| == 17
    ensures Sits(w, GetAt(x, i), t.kids[i]) && Leads(w, GetAt(x, i), t.kids[i])
  {
  }

  lemma OpenedLen(w: View, x: Item, t: Tree)
    requires Opened(w, x, t)
    ensures LenOf(x) == 2 <==> t.Short?
    ensures LenOf(x) == 17 <==> t.Branch?
    ensures LenOf(x) == 0 <==> !t.Short? && !t.Branch?
  {
  }

  /** The item is a new node t over children the view holds. */
  ghost predicate Built(w: View, x: Item, t: Tree) {
    && Node(t) && Fits(w.e, t) && (t.Short? || t.Branch? || t.Void?)
    && PartsHeld(w.e, w.nodes, w.data, t)
    && Plain(x) && Plain(NodeItem(w.e, t)) && Canon(x) == Canon(NodeItem(w.e, t))
  }

  lemma BuiltShort(w: View, k: Path, x: Item, c: Tree)
    requires Tame(w.e) && Node(Short(k, c)) && Fits(w.e, Short(k, c)) && Sits(w, x, c)
    ensures Built(w, List([Text(CompactEncode(k)), x]), Short(k, c))
  {
    IsShort(w.e, w.nodes, w.data, k, x, c);
  }

  lemma BuiltBranch(w: View, xs: seq<Item>, kids: seq<Tree>)
    requires Tame(w.e) && Node(Branch(kids)) && Fits(w.e, Branch(kids)) && |xs| == 17
    requires forall i :: 0 <= i < 17 ==> Sits(w, xs[i], kids[i])
    ensures Built(w, List(xs), Branch(kids))
  {
    IsBranch(w.e, w.nodes, w.data, xs, kids);
  }

  /** What Put does to the view. */
  lemma PutSits(w: View, x: Item, t: Tree)
    requires Tame(w.e) && Built(w, x, t)
    ensures Encode(x) in w.e.blobs && Plain(x)
    ensures |Encode(x)| < 32 ==> Sits(w, x, t)
    ensures var h := w.e.hash(Encode(x));
            var w' := w.(nodes := w.nodes[h := CacheNode(x, true)]);
            && Grown(w, w') && (|Encode(x)| >= 32 ==> Sits(w', Raw(h), t))
            && Leads(w', Raw(h), t) && h == HashOf(w.e, t) && |h| >= 32
  {
    PutIsRef(w.e, w.nodes, w.data, x, t);
    LongCanon(HashOf(w.e, t));
  }

  lemma CoherentPut(e: Env, nodes: Nodes, data: Data, x: Item)
    requires Coherent(e, nodes, data) && Plain(x) && Encode(x) in e.blobs && e.hash(Encode(x)) != []
    ensures Coherent(e, nodes[e.hash(Encode(x)) := CacheNode(x, true)], data)
  {
    var nodes' := nodes[e.hash(Encode(x)) := CacheNode(x, true)];
    forall h | h in nodes' && h != [] ensures NodeOk(e, nodes'[h], data, h) {
      if h != e.hash(Encode(x)) { assert NodeOk(e, nodes[h], data, h); }
    }
  }

  lemma EmptySits(w: View)
    ensures Sits(w, Text([]), Empty)
  {
  }

  lemma BuiltVoid(w: View)
    requires Tame(w.e) && Fits(w.e, Void)
    ensures Built(w, List([]), Void)
  {
  }

  /** A void child is always inline. */
  lemma VoidSits(w: View, x: Item)
    requires Tame(w.e) && Sits(w, x, Void)
    ensures LenOf(x) == 0
  {
    EncodeEmptyList();
    PlainCanon(x);
  }

  lemma SitsPlain(w: View, x: Item, t: Tree)
    requires Sits(w, x, t)
    ensures !x.Nil?
  {
  }
}
