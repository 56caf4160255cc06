/**
 * Writing accounts back: the account record of ethstate/state_object.go, and State.Update followed by State.Sync on
 * tries that share one database. A state opened afresh at the new root reads every account as it was written.
 */
module Account {
  import opened Bytes
  import opened HexPrefix
  import opened Rlp
  import opened Options
  import opened Tree
  import opened Bindings
  import opened Merkle
  import opened Commitment
  import P = Paranoia
  import opened Deletion
  import opened Storage
  import opened Trie

  // -------------------------------------------------------------- the record

  type uint64 = n: nat | n < 0x1_0000_0000_0000_0000

  /** The conversion int64(n) in the codec's case for uint64. */
  function Int64(n: uint64): int {
    if n < TWO63 then n else n - TWO64
  }

  function Record(nonce: uint64, balance: int, root: Item, codeHash: Bytes): Item {
    List([Big(Int64(nonce)), Big(balance), root, Raw(codeHash)])
  }

  datatype Parts = Parts(nonce: nat, balance: int, root: Item, codeHash: Bytes)

  /** StateObject.RlpDecode; Get past the end of a list gives nil, which reads as 0 or nothing. */
  function RlpDecode(data: Bytes): Decoded<Parts> {
    match Decode(data, 0)
    case Panic => Panic
    case Ok(x, next) =>
      Ok(Parts(UintOf(GetAt(x, 0)), BigOf(GetAt(x, 1)), GetAt(x, 2), BytesOf(GetAt(x, 3))), next)
  }

  lemma RecordParts(x: Item)
    requires x.List? && |x.items| == 4
    ensures forall i :: 0 <= i < 4 ==> GetAt(Canon(x), i) == Canon(x.items[i])
  {
  }

  /** The magnitude of int64(n) is n up to 2 to the 63, and another number beyond. */
  lemma AbsInt64(n: uint64)
    ensures Abs(Int64(n)) == if n <= TWO63 then n else TWO64 - n
    ensures Abs(Int64(n)) < TWO64
  {
  }

  lemma StringBack(s: Bytes)
    ensures BytesOf(Canon(Raw(s))) == s
  {
  }

  /** The record comes back whole exactly when the balance is not negative and the nonce is at most 2 to the 63. */
  lemma RecordRoundTrip(nonce: uint64, balance: int, root: Item, codeHash: Bytes)
    requires |Encode(Record(nonce, balance, root, codeHash))| < GO_MAX_LEN
    ensures var r := RlpDecode(Encode(Record(nonce, balance, root, codeHash)));
      && r.Ok? && r.value.root == Canon(root) && r.value.codeHash == codeHash
      && (r.value.nonce == nonce <==> nonce <= TWO63)
      && (r.value.balance == balance <==> balance >= 0)
  {
    hide Encode, Decode, Canon, UintOf, BigOf, BytesOf, GetAt;
    var x := Record(nonce, balance, root, codeHash);
    DecodeWhole(x);
    RecordParts(x);
    AbsInt64(nonce);
    NumberBack(Int64(nonce));
    NumberBack(balance);
    StringBack(codeHash);
  }

  // ------------------------------------------------------------ storage tries

  /** Cells written in some order of the map, each once at most. */
  ghost predicate Walk(e: Env, t: Tree, cells: map<Bytes, nat>, order: seq<Bytes>, trees: seq<Tree>) {
    && Chain(e, cells, order, trees) && trees[0] == t
    && forall i, j :: 0 <= i < j < |order| ==> order[i] != order[j]
  }

  predicate Covers(cells: map<Bytes, nat>, order: seq<Bytes>) {
    forall k :: k in cells ==> k in order
  }

  /** A tree that StateObject.Sync can leave: one walk over all the cells, and the check. */
  ghost predicate Flushed(e: Env, t: Tree, cells: map<Bytes, nat>, s: Tree) {
    exists order, trees :: Walk(e, t, cells, order, trees) && Covers(cells, order) && s == Checked(trees[|order|])
  }

  ghost predicate CellFits(e: Env, t: Tree, k: Bytes, v: nat) {
    if v == 0 then Removable(e, Whole(t), KeyPath(k)) else Fits(e, Written(t, k, CellBytes(v)))
  }

  /**
   * Whichever way the walk goes, the nodes made on it are among the environment's strings, and it ends in a tree that
   * can be iterated.
   */
  ghost predicate StoreFits(e: Env, t: Tree, cells: map<Bytes, nat>) {
    forall order, trees :: Walk(e, t, cells, order, trees) ==>
      && (forall k :: k in cells && k !in order ==> CellFits(e, trees[|order|], k, cells[k]))
      && (Covers(cells, order) ==> Solid(trees[|order|]) && P.Rebuildable(e, trees[|order|]))
  }

  /** One cell of the loop in StateObject.Sync. */
  method SyncCell(store: Trie, k: Bytes, v: nat)
    requires store.Valid() && StoreOk(store.tree) && |k| == 32 && Encodable(v) && CellFits(store.cache.env, store.tree, k, v)
    modifies store, store.cache
    ensures store.Valid() && StoreOk(store.tree) && CellStep(store.cache.env, old(store.tree), k, v, store.tree)
  {
    hide Trie.Valid, Outcome, Whole, Written, Removable, Fits, KeyPath, Level, Node, NonEmpty, CellBytes, Thick, KeepsOthers;
    P.ValidLive(store);
    KeyLength(k);
    if v == 0 {
      LevelGuarded(store.tree, KeyPath(k));
      store.Delete(k);
    } else {
      CellBack(v);
      store.Update(k, CellBytes(v));
    }
    StepOk(store.cache.env, old(store.tree), k, v, store.tree);
  }

  lemma WalkMore(e: Env, t: Tree, cells: map<Bytes, nat>, order: seq<Bytes>, trees: seq<Tree>, k: Bytes, next: Tree)
    requires Walk(e, t, cells, order, trees) && k in cells && k !in order && CellStep(e, trees[|order|], k, cells[k], next)
    ensures Walk(e, t, cells, order + [k], trees + [next])
  {
    hide CellStep;
    ChainMore(e, cells, order, trees, k, next);
  }

  lemma WalkNext(e: Env, t: Tree, cells: map<Bytes, nat>, order: seq<Bytes>, trees: seq<Tree>, k: Bytes)
    requires StoreFits(e, t, cells) && Walk(e, t, cells, order, trees) && k in cells && k !in order
    ensures CellFits(e, trees[|order|], k, cells[k])
  {
    hide CellFits, Covers, Solid, P.Rebuildable;
  }

  lemma WalkEnd(e: Env, t: Tree, cells: map<Bytes, nat>, order: seq<Bytes>, trees: seq<Tree>)
    requires StoreFits(e, t, cells) && Walk(e, t, cells, order, trees) && Covers(cells, order)
    ensures Solid(trees[|order|]) && P.Rebuildable(e, trees[|order|])
    ensures Flushed(e, t, cells, Checked(trees[|order|]))
  {
    hide CellFits, Solid, P.Rebuildable, Checked;
  }

  lemma WalkStart(e: Env, t: Tree, cells: map<Bytes, nat>)
    ensures Walk(e, t, cells, [], [t])
  {
  }

  /** StateObject.Sync on the trie itself. */
  method SyncStore(store: Trie, cells: map<Bytes, nat>) returns (store': Trie)
    requires store.Valid() && StoreOk(store.tree) && CellsOk(cells) && StoreFits(store.cache.env, store.tree, cells)
    modifies store, store.cache
    ensures store'.Valid() && store'.cache.db == store.cache.db && store'.cache.env == store.cache.env
    ensures store' == store || (fresh(store') && fresh(store'.cache))
    ensures Flushed(store.cache.env, old(store.tree), cells, store'.tree)
  {
    hide Trie.Valid, StoreOk, CellStep, CellFits, StoreFits, Walk, Encodable, Flushed, Solid, P.Rebuildable, Checked;
    ghost var e, t, order, trees := store.cache.env, store.tree, [], [store.tree];
    WalkStart(e, t, cells);
    var keys := cells.Keys;
    while keys != {}
      invariant keys <= cells.Keys && forall k :: k in order <==> k in cells && k !in keys
      invariant store.Valid() && StoreOk(store.tree)
      invariant Walk(e, t, cells, order, trees) && |trees| == |order| + 1 && trees[|order|] == store.tree
      decreases keys
    {
      var k :| k in keys;
      WalkNext(e, t, cells, order, trees, k);
      SyncCell(store, k, cells[k]);
      WalkMore(e, t, cells, order, trees, k, store.tree);
      order, trees := order + [k], trees + [store.tree];
      keys := keys - {k};
    }
    WalkEnd(e, t, cells, order, trees);
    store' := Check(store);
  }

  /** ParanoiaCheck, and the trie that goes on. */
  method Check(t: Trie) returns (t': Trie)
    requires t.Valid() && Solid(t.tree) && P.Rebuildable(t.cache.env, t.tree)
    modifies t.cache
    ensures t'.Valid() && t'.cache.db == t.cache.db && t'.cache.env == t.cache.env
    ensures t' == t || (fresh(t') && fresh(t'.cache))
    ensures t'.tree == Checked(t.tree) && t'.binds == t.binds
  {
    hide Trie.Valid, Solid, P.Rebuildable, Canonical, Represents, Rebuild, EntriesOf;
    P.ValidLive(t);
    var valid, t2 := P.ParanoiaCheck(t);
    t' := if valid then t else t2;
    if !valid {
      P.ValidLive(t);
      P.ValidLive(t2);
      RebuiltIs(t.tree, t2.tree, t.binds);
    }
  }

  lemma RebuiltIs(t: Tree, t2: Tree, m: Binds)
    requires Solid(t) && Node(t) && Represents(t, m) && Canonical(t2) && Node(t2) && Represents(t2, m)
    ensures t2 == Rebuild(EntriesOf(t, []))
  {
    hide Solid, Canonical, Lookup, Rebuild, EntriesOf;
    NotVal(t);
    NotVal(t2);
    RebuildFromEntries(t);
    CanonicalUnique(t2, Rebuild(EntriesOf(t, [])));
  }

  // -------------------------------------------------------------- the state trie

  /** A cached account: its fields, whether it is marked for removal, its cached cells and its storage trie. */
  datatype Cached = Cached(
    addr: Bytes, nonce: uint64, balance: int, code: Bytes, remove: bool, cells: map<Bytes, nat>, store: Trie)

  /** The nibbles of a 20-byte address, and the terminator. */
  const ADDRESS := 41

  /** A state trie: keys of 20 bytes and records of 32 bytes or more. */
  predicate StateOk(t: Tree) {
    Node(t) && Level(t, ADDRESS) && NonEmpty(t) && Thick(t)
  }

  /** What RlpEncode gives for an account whose storage trie is s. */
  function RecordOf(e: Env, x: Cached, s: Tree): Bytes {
    Encode(Record(x.nonce, x.balance, RootItem(e, s), e.hash(x.code)))
  }

  /** Addresses of 20 bytes, cells of 32, and code among the environment's strings. */
  predicate Storable(e: Env, x: Cached) {
    |x.addr| == 20 && x.code in e.blobs && CellsOk(x.cells)
  }

  /** How writing one account changes the state trie. */
  ghost predicate RecordStep(e: Env, t: Tree, x: Cached, s: Tree, t': Tree) {
    if x.remove then Outcome(e, Whole(t), KeyPath(x.addr), t') else t' == Written(t, x.addr, RecordOf(e, x, s))
  }

  /** Whichever way each account is written, the nodes of the state trie are among the environment's strings. */
  ghost predicate PlanFits(e: Env, t: Tree, plan: seq<Cached>, starts: seq<Tree>)
    requires |plan| == |starts|
    decreases |plan|
  {
    if plan == [] then Solid(t) && P.Rebuildable(e, t)
    else
      var x := plan[0];
      if x.remove then
        && Removable(e, Whole(t), KeyPath(x.addr))
        && forall t' :: Outcome(e, Whole(t), KeyPath(x.addr), t') ==> PlanFits(e, t', plan[1..], starts[1..])
      else forall s :: Flushed(e, starts[0], x.cells, s) ==>
        var t' := Written(t, x.addr, RecordOf(e, x, s));
        |RecordOf(e, x, s)| < GO_MAX_LEN && Fits(e, t') && PlanFits(e, t', plan[1..], starts[1..])
  }

  /** The bindings once the first accounts of the plan, with these storage tries, are written. */
  function Recorded(e: Env, m: Binds, plan: seq<Cached>, trees: seq<Tree>): Binds
    requires |trees| <= |plan|
  {
    if trees == [] then m
    else
      var n := |trees| - 1;
      var x, p := plan[n], Recorded(e, m, plan, trees[..n]);
      if x.remove then p - {x.addr} else p[x.addr := RecordOf(e, x, trees[n])]
  }

  lemma {:induction false} RecordedAt(e: Env, m: Binds, plan: seq<Cached>, trees: seq<Tree>, addr: Bytes)
    requires |trees| <= |plan| && forall i, j :: 0 <= i < j < |plan| ==> plan[i].addr != plan[j].addr
    ensures var r := Recorded(e, m, plan, trees);
      && (forall i :: 0 <= i < |trees| && plan[i].addr == addr ==>
            if plan[i].remove then addr !in r else addr in r && r[addr] == RecordOf(e, plan[i], trees[i]))
      && ((forall i :: 0 <= i < |trees| ==> plan[i].addr != addr) ==>
            (addr in r <==> addr in m) && (addr in m ==> r[addr] == m[addr]))
  {
    hide RecordOf;
    if trees != [] {
      RecordedAt(e, m, plan, trees[..|trees| - 1], addr);
    }
  }

  lemma RecordedMore(e: Env, m: Binds, plan: seq<Cached>, trees: seq<Tree>, s: Tree)
    requires |trees| < |plan|
    ensures var x, p := plan[|trees|], Recorded(e, m, plan, trees);
      Recorded(e, m, plan, trees + [s]) == if x.remove then p - {x.addr} else p[x.addr := RecordOf(e, x, s)]
  {
    hide RecordOf;
    assert (trees + [s])[..|trees|] == trees;
  }

  // ------------------------------------------------------------ a record's bytes

  /** A parsed byte string; a single byte up to 0x7f is parsed as itself. */
  predicate IsString(x: Item, s: Bytes) {
    if x.U8? then s == [x.b] else x.Raw? && s == x.bs
  }

  predicate IsNumber(x: Item, n: nat) {
    if x.U8? then n == x.b else x.Raw? && n == Num(x.bs)
  }

  /** The bytes are a list of four items: the nonce, the balance, the root and the hash of the code, in this order. */
  ghost predicate FourItems(data: Bytes, nonce: nat, balance: nat, root: Bytes, codeHash: Bytes) {
    exists a, b, c, d ::
      && Decode(data, 0) == Ok(List([a, b, c, d]), |data|)
      && IsNumber(a, nonce) && IsNumber(b, balance) && IsString(c, root) && IsString(d, codeHash)
  }

  lemma NumberIs(n: int)
    ensures IsNumber(Canon(Big(n)), Abs(n))
  {
    var b := BigBytes(Abs(n));
    NumBigBytes(Abs(n));
    if |b| == 1 { assert b[..0] == [] && Num(b) == 256 * Num(b[..0]) + b[0]; }
  }

  lemma StringIs(s: Bytes)
    ensures IsString(Canon(Raw(s)), s) && IsString(Canon(Text(s)), s)
  {
  }

  /**
   * The record of an account, item by item. The nonce is written as the magnitude of its int64, which is the nonce
   * itself up to 2 to the 63; the balance as its magnitude; the root of an empty storage as no bytes.
   */
  lemma RecordLayout(e: Env, x: Cached, s: Tree)
    requires |RecordOf(e, x, s)| < GO_MAX_LEN
    ensures FourItems(
      RecordOf(e, x, s),
      if x.nonce <= 0x8000_0000_0000_0000 then x.nonce else 0x1_0000_0000_0000_0000 - x.nonce,
      if x.balance < 0 then -x.balance else x.balance,
      if s.Empty? then [] else e.hash(Encode(NodeItem(e, s))),
      e.hash(x.code))
  {
    hide Encode, Decode, Canon, IsNumber, IsString;
    var root, h := RootItem(e, s), e.hash(x.code);
    var r := Record(x.nonce, x.balance, root, h);
    DecodeWhole(r);
    CanonFour(r);
    AbsInt64(x.nonce);
    NumberIs(Int64(x.nonce));
    NumberIs(x.balance);
    StringIs(if s.Empty? then [] else HashOf(e, s));
    StringIs(h);
  }

  lemma CanonFour(x: Item)
    requires x.List? && |x.items| == 4
    ensures Canon(x) == List([Canon(x.items[0]), Canon(x.items[1]), Canon(x.items[2]), Canon(x.items[3])])
  {
    assert CanonAll(x.items) == [Canon(x.items[0]), Canon(x.items[1]), Canon(x.items[2]), Canon(x.items[3])];
  }

  /** A list of four strings is read into the fields by position. */
  lemma FieldsRead(data: Bytes, next: nat, a: Item, b: Item, c: Item, d: Item, nonce: nat, balance: nat, codeHash: Bytes)
    requires Decode(data, 0) == Ok(List([a, b, c, d]), next)
    requires IsNumber(a, nonce) && IsNumber(b, balance) && IsString(d, codeHash) && nonce < TWO64
    ensures RlpDecode(data) == Ok(Parts(nonce, balance, c, codeHash), next)
  {
    hide Decode;
  }

  // ------------------------------------------------------------- writing records

  lemma {:induction false} EncodeAllSame(a: seq<Item>, b: seq<Item>)
    requires |a| == |b| && forall i :: 0 <= i < |a| ==> Encode(a[i]) == Encode(b[i])
    ensures EncodeAll(a) == EncodeAll(b)
  {
    if a != [] { EncodeAllSame(a[1..], b[1..]); }
  }

  /** However the root is held in memory, the record is the same. */
  lemma RecordSame(e: Env, x: Cached, store: Trie)
    requires store.Live() && e == store.cache.env
    ensures Encode(Record(x.nonce, x.balance, store.root, e.hash(x.code))) == RecordOf(e, x, store.tree)
  {
    hide Encode, Canon, Tame, Coherent;
    var r, y := store.root, RootItem(e, store.tree);
    RootPlain(store);
    SameAccess(r, y);
    var h := e.hash(x.code);
    EncodeAllSame(Record(x.nonce, x.balance, r, h).items, Record(x.nonce, x.balance, y, h).items);
    EncodeLists(Record(x.nonce, x.balance, r, h).items, Record(x.nonce, x.balance, y, h).items);
  }

  lemma EncodeLists(a: seq<Item>, b: seq<Item>)
    requires EncodeAll(a) == EncodeAll(b)
    ensures Encode(List(a)) == Encode(List(b))
  {
  }

  lemma RootPlain(t: Trie)
    requires t.Live()
    ensures Plain(t.root) && Plain(RootItem(t.cache.env, t.tree)) && Canon(t.root) == Canon(RootItem(t.cache.env, t.tree))
  {
    hide Encode, Canon, Coherent;
    if !t.tree.Empty? { RefForms(t.cache.env, t.tree); }
  }

  /** A record holds a hash, so it is long. */
  lemma RecordLong(e: Env, x: Cached, s: Tree)
    requires Tame(e) && x.code in e.blobs
    ensures |RecordOf(e, x, s)| >= 32
  {
    hide Encode;
    var r := Record(x.nonce, x.balance, RootItem(e, s), e.hash(x.code));
    ItemInList(r.items, 3);
    LongRaw(e.hash(x.code));
    ListLonger(r.items);
  }

  lemma LongRaw(s: Bytes)
    requires |s| >= 32
    ensures |Encode(Raw(s))| >= 32
  {
  }

  lemma ListLonger(items: seq<Item>)
    ensures |Encode(List(items))| >= |EncodeAll(items)|
  {
  }

  /** Putting code under its hash adds to the database only. */
  lemma CodePut(e: Env, data: Data, code: Bytes)
    requires Tame(e) && Addressed(e, data) && code in e.blobs
    ensures Extends(data, data[e.hash(code) := code]) && Addressed(e, data[e.hash(code) := code])
  {
  }

  lemma RecordStepOk(e: Env, t: Tree, x: Cached, s: Tree, t': Tree)
    requires StateOk(t) && Tame(e) && Storable(e, x) && RecordStep(e, t, x, s, t')
    ensures StateOk(t')
  {
    hide RecordOf, Tame, Insert;
    WholeLevel(t, ADDRESS);
    var w, k := Whole(t), KeyPath(x.addr);
    if x.remove {
      var picks :| Allowed(e, w, k, picks) && t' == RemoveBy(e, w, k, picks);
      RemoveByNode(e, w, k, picks);
    } else {
      RecordLong(e, x, s);
      InsertNode(w, k, RecordOf(e, x, s));
      InsertKeeps(w, k, RecordOf(e, x, s));
    }
  }

  /** UpdateStateObject, or DeleteStateObject for an account marked for removal. */
  method WriteRecord(st: Trie, x: Cached, store: Trie)
    requires st.Valid() && store.Valid() && StateOk(st.tree) && Storable(st.cache.env, x) && Beside(st, store)
    requires x.remove ==> Removable(st.cache.env, Whole(st.tree), KeyPath(x.addr))
    requires !x.remove ==> Fits(st.cache.env, Written(st.tree, x.addr, RecordOf(st.cache.env, x, store.tree)))
    modifies st, st.cache, st.cache.db
    ensures st.Valid() && StateOk(st.tree)
    ensures RecordStep(st.cache.env, old(st.tree), x, store.tree, st.tree)
    ensures st.binds ==
      if x.remove then old(st.binds) - {x.addr} else old(st.binds)[x.addr := RecordOf(st.cache.env, x, store.tree)]
    ensures Extends(old(st.cache.db.data), st.cache.db.data) && Addressed(st.cache.env, st.cache.db.data)
    ensures !x.remove ==> st.cache.env.hash(x.code) in st.cache.db.data
    ensures !x.remove && |st.binds[x.addr]| < GO_MAX_LEN ==> FourItems(
      st.binds[x.addr],
      if x.nonce <= 0x8000_0000_0000_0000 then x.nonce else 0x1_0000_0000_0000_0000 - x.nonce,
      if x.balance < 0 then -x.balance else x.balance,
      if store.tree.Empty? then [] else st.cache.env.hash(Encode(NodeItem(st.cache.env, store.tree))),
      st.cache.env.hash(x.code))
  {
    hide FourItems, Encode;
    hide Trie.Valid, StateOk, RecordOf, Removable, Fits, Written, Outcome, Whole, Addressed, Tame, KeyPath, Extends;
    P.ValidLive(st);
    P.ValidLive(store);
    P.LiveAddressed(st);
    ghost var e, t := st.cache.env, st.tree;
    if x.remove {
      StateReady(t, x);
      st.Delete(x.addr);
      ExtendsRefl(st.cache.db.data);
    } else {
      var h := st.cache.env.hash(x.code);
      var record := Record(x.nonce, x.balance, store.root, h);
      RecordSame(e, x, store);
      RecordLong(e, x, store.tree);
      CodePut(e, st.cache.db.data, x.code);
      label Before:
      st.cache.db.data := st.cache.db.data[h := x.code];
      st.Undisturbed@Before();
      var enc := EncodeBuffer(record);
      st.Update(x.addr, enc);
      if |st.binds[x.addr]| < GO_MAX_LEN { RecordLayout(e, x, store.tree); }
    }
    RecordStepOk(e, t, x, store.tree, st.tree);
  }

  /** Two tries over one database, each with a cache of its own. */
  ghost predicate Beside(s: Trie, t: Trie) {
    s != t && s.cache != t.cache && s.cache.db == t.cache.db && s.cache.env == t.cache.env
  }

  lemma StateReady(t: Tree, x: Cached)
    requires StateOk(t) && |x.addr| == 20
    ensures NonEmpty(t) && Guarded(t, KeyPath(x.addr)) && Thick(t)
  {
    LevelGuarded(t, KeyPath(x.addr));
  }

  // -------------------------------------------------------- State.Update and Sync

  ghost predicate Apart(st: Trie, stores: seq<Trie>) {
    && (forall i :: 0 <= i < |stores| ==> Beside(st, stores[i]))
    && (forall i, j :: 0 <= i < j < |stores| ==> Beside(stores[i], stores[j]))
  }

  lemma ApartNew(st: Trie, stores: seq<Trie>, i: nat, s: Trie)
    requires Apart(st, stores) && i < |stores| && Beside(st, s)
    requires forall j :: 0 <= j < |stores| && j != i ==> Beside(stores[j], s)
    ensures Apart(st, stores[i := s])
  {
  }

  function Stores(plan: seq<Cached>): seq<Trie> {
    seq(|plan|, i requires 0 <= i < |plan| => plan[i].store)
  }

  ghost function Trees(stores: seq<Trie>): seq<Tree>
    reads set s | s in stores
  {
    seq(|stores|, i requires 0 <= i < |stores| reads (if 0 <= i < |stores| then {stores[i]} else {}) => stores[i].tree)
  }

  /** What one cached account demands of the environment and of its storage trie. */
  ghost predicate Flushable(e: Env, x: Cached, t: Tree) {
    Storable(e, x) && StoreOk(t) && StoreFits(e, t, x.cells)
  }

  /** One account of the loop in State.Update: sync its storage and write its record, or delete it. */
  method UpdateOne(st: Trie, x: Cached, stores: seq<Trie>, i: nat) returns (stores': seq<Trie>)
    requires st.Valid() && StateOk(st.tree) && i < |stores| && stores[i] == x.store && Apart(st, stores)
    requires forall j :: 0 <= j < |stores| ==> stores[j].Valid()
    requires Flushable(st.cache.env, x, x.store.tree)
    requires x.remove ==> Removable(st.cache.env, Whole(st.tree), KeyPath(x.addr))
    requires !x.remove ==> forall s :: Flushed(st.cache.env, x.store.tree, x.cells, s) ==>
      Fits(st.cache.env, Written(st.tree, x.addr, RecordOf(st.cache.env, x, s)))
    modifies st, st.cache, st.cache.db, x.store, x.store.cache
    ensures st.Valid() && StateOk(st.tree)
    ensures |stores'| == |stores| && forall j :: 0 <= j < |stores| && j != i ==> stores'[j] == stores[j]
    ensures stores'[i] == stores[i] || (fresh(stores'[i]) && fresh(stores'[i].cache))
    ensures Apart(st, stores') && forall j :: 0 <= j < |stores| ==> stores'[j].Valid()
    ensures x.remove ==> stores' == stores
    ensures !x.remove ==> Flushed(st.cache.env, old(x.store.tree), x.cells, stores'[i].tree)
    ensures RecordStep(st.cache.env, old(st.tree), x, stores'[i].tree, st.tree)
    ensures st.binds ==
      if x.remove then old(st.binds) - {x.addr} else old(st.binds)[x.addr := RecordOf(st.cache.env, x, stores'[i].tree)]
    ensures Extends(old(st.cache.db.data), st.cache.db.data)
    ensures !x.remove ==> st.cache.env.hash(x.code) in st.cache.db.data
  {
    hide Trie.Valid, StateOk, StoreOk, StoreFits, RecordOf, Removable, Fits, Written, Outcome, Whole, Addressed, KeyPath, Extends,
      RecordStep, Flushed, CellsOk;
    stores' := stores;
    if !x.remove {
      var store' := SyncStore(x.store, x.cells);
      stores' := stores[i := store'];
      ApartNew(st, stores, i, store');
      forall j | 0 <= j < |stores| ensures stores'[j].Valid() {}
    }
    label Synced:
    WriteRecord(st, x, stores'[i]);
    forall j | 0 <= j < |stores| ensures stores'[j].Valid() {
      stores'[j].StillValid@Synced();
    }
  }

  lemma PlanNow(e: Env, t: Tree, plan: seq<Cached>, starts: seq<Tree>, i: nat)
    requires |plan| == |starts| && i < |plan| && PlanFits(e, t, plan[i..], starts[i..])
    ensures var x := plan[i];
      if x.remove then Removable(e, Whole(t), KeyPath(x.addr))
      else forall s :: Flushed(e, starts[i], x.cells, s) ==> Fits(e, Written(t, x.addr, RecordOf(e, x, s)))
  {
    hide Removable, Fits, Written, Flushed, RecordOf, Whole, Outcome;
    assert plan[i..][0] == plan[i] && starts[i..][0] == starts[i];
  }

  lemma PlanStep(e: Env, t: Tree, plan: seq<Cached>, starts: seq<Tree>, i: nat, s: Tree, t': Tree)
    requires |plan| == |starts| && i < |plan| && PlanFits(e, t, plan[i..], starts[i..])
    requires RecordStep(e, t, plan[i], s, t') && (!plan[i].remove ==> Flushed(e, starts[i], plan[i].cells, s))
    ensures PlanFits(e, t', plan[i + 1..], starts[i + 1..])
    ensures !plan[i].remove ==> |RecordOf(e, plan[i], s)| < GO_MAX_LEN
  {
    hide Removable, Fits, Written, Flushed, RecordOf, Whole, Outcome;
    assert plan[i..][0] == plan[i] && plan[i..][1..] == plan[i + 1..];
    assert starts[i..][0] == starts[i] && starts[i..][1..] == starts[i + 1..];
  }

  /** How far an account has come: its storage is synced in its trie, and its code is in the database. */
  ghost predicate Done(e: Env, data: Data, x: Cached, start: Tree, s: Tree) {
    !x.remove ==> Flushed(e, start, x.cells, s) && e.hash(x.code) in data && |RecordOf(e, x, s)| < GO_MAX_LEN
  }

  lemma DoneStays(e: Env, data: Data, data': Data, x: Cached, start: Tree, s: Tree)
    requires Done(e, data, x, start, s) && Extends(data, data')
    ensures Done(e, data', x, start, s)
  {
  }

  /** The loop of State.Update over the cached accounts. */
  method UpdateAll(st: Trie, plan: seq<Cached>) returns (stores: seq<Trie>)
    requires st.Valid() && StateOk(st.tree) && Apart(st, Stores(plan))
    requires forall i :: 0 <= i < |plan| ==> plan[i].store.Valid() && Flushable(st.cache.env, plan[i], plan[i].store.tree)
    requires PlanFits(st.cache.env, st.tree, plan, Trees(Stores(plan)))
    modifies st, st.cache, st.cache.db, set s | s in Stores(plan), set s | s in Stores(plan) :: s.cache
    ensures st.Valid() && StateOk(st.tree) && Solid(st.tree) && P.Rebuildable(st.cache.env, st.tree)
    ensures |stores| == |plan| && Apart(st, stores) && forall i :: 0 <= i < |plan| ==> stores[i].Valid()
    ensures forall i :: 0 <= i < |plan| ==>
      Done(st.cache.env, st.cache.db.data, plan[i], old(plan[i].store.tree), stores[i].tree)
    ensures forall s :: s in stores ==> s in Stores(plan) || (fresh(s) && fresh(s.cache))
    ensures st.binds == Recorded(st.cache.env, old(st.binds), plan, Trees(stores))
    ensures Extends(old(st.cache.db.data), st.cache.db.data)
  {
    hide Trie.Valid, StateOk, Flushable, Apart, RecordOf, Removable, Fits, Written, Outcome, Whole, Addressed, KeyPath, Extends,
      RecordStep, Flushed, PlanFits, Recorded, Solid, P.Rebuildable, Done;
    ghost var e, m, starts, trees := st.cache.env, st.binds, Trees(Stores(plan)), [];
    stores := Stores(plan);
    assert plan[0..] == plan && starts[0..] == starts;
    ExtendsRefl(st.cache.db.data);
    RecordedNone(e, m, plan);
    for i := 0 to |plan|
      invariant st.Valid() && StateOk(st.tree)
      invariant |stores| == |plan| && Apart(st, stores) && forall j :: 0 <= j < |plan| ==> stores[j].Valid()
      invariant forall j :: 0 <= j < |plan| ==> stores[j] == plan[j].store || (fresh(stores[j]) && fresh(stores[j].cache))
      invariant forall j :: i <= j < |plan| ==> stores[j] == plan[j].store && stores[j].tree == starts[j]
      invariant PlanFits(e, st.tree, plan[i..], starts[i..])
      invariant |trees| == i && forall j :: 0 <= j < i ==> trees[j] == stores[j].tree
      invariant forall j :: 0 <= j < i ==> Done(e, st.cache.db.data, plan[j], starts[j], trees[j])
      invariant st.binds == Recorded(e, m, plan, trees)
      invariant Extends(old(st.cache.db.data), st.cache.db.data)
    {
      label Now:
      ghost var t := st.tree;
      PlanNow(e, t, plan, starts, i);
      var next := UpdateOne(st, plan[i], stores, i);
      ghost var s := next[i].tree;
      PlanStep(e, t, plan, starts, i, s, st.tree);
      RecordedMore(e, m, plan, trees, s);
      ExtendsTrans(old(st.cache.db.data), old@Now(st.cache.db.data), st.cache.db.data);
      forall j | 0 <= j < i ensures Done(e, st.cache.db.data, plan[j], starts[j], trees[j]) {
        DoneStays(e, old@Now(st.cache.db.data), st.cache.db.data, plan[j], starts[j], trees[j]);
      }
      DoneNow(e, st.cache.db.data, plan[i], starts[i], s);
      OthersApart(st, stores, i);
      stores, trees := next, trees + [s];
    }
    assert trees == Trees(stores);
    forall s | s in stores ensures s in Stores(plan) || (fresh(s) && fresh(s.cache)) {
      var i :| 0 <= i < |plan| && stores[i] == s;
      assert Stores(plan)[i] == plan[i].store;
    }
    PlanEnd(e, st.tree, plan, starts);
  }

  lemma OthersApart(st: Trie, stores: seq<Trie>, i: nat)
    requires Apart(st, stores) && i < |stores|
    ensures Beside(st, stores[i]) && forall j :: 0 <= j < |stores| && j != i ==> Beside(stores[j], stores[i]) && Beside(st, stores[j])
  {
  }

  lemma DoneNow(e: Env, data: Data, x: Cached, start: Tree, s: Tree)
    requires !x.remove ==> Flushed(e, start, x.cells, s) && e.hash(x.code) in data && |RecordOf(e, x, s)| < GO_MAX_LEN
    ensures Done(e, data, x, start, s)
  {
  }

  lemma RecordedNone(e: Env, m: Binds, plan: seq<Cached>)
    ensures Recorded(e, m, plan, []) == m
  {
  }

  lemma PlanEnd(e: Env, t: Tree, plan: seq<Cached>, starts: seq<Tree>)
    requires |plan| == |starts| && PlanFits(e, t, plan[|plan|..], starts[|plan|..])
    ensures Solid(t) && P.Rebuildable(e, t)
  {
    hide Solid, P.Rebuildable;
  }

  /** The database holds a trie with this tree under its root. */
  ghost predicate OnDisk(e: Env, data: Data, t: Tree) {
    exists m :: Rooted(View(e, map[], data), Canon(RootItem(e, t)), t, m)
  }

  /** Trie.Sync for the storage of every account that stays. */
  method SyncAll(st: Trie, plan: seq<Cached>, stores: seq<Trie>)
    requires |plan| == |stores| && st.Valid() && Apart(st, stores) && forall i :: 0 <= i < |stores| ==> stores[i].Valid()
    modifies st.cache.db, set s | s in stores, set s | s in stores :: s.cache
    ensures st.Valid() && forall i :: 0 <= i < |stores| ==> stores[i].Valid() && stores[i].tree == old(stores[i].tree)
    ensures forall i :: 0 <= i < |stores| && !plan[i].remove ==> Synced(stores[i])
    ensures Extends(old(st.cache.db.data), st.cache.db.data)
  {
    hide Trie.Valid, Addressed, Extends;
    ExtendsRefl(st.cache.db.data);
    for i := 0 to |stores|
      invariant st.Valid() && forall j :: 0 <= j < |stores| ==> stores[j].Valid() && stores[j].tree == old(stores[j].tree)
      invariant forall j :: 0 <= j < i && !plan[j].remove ==> Synced(stores[j])
      invariant Extends(old(st.cache.db.data), st.cache.db.data)
    {
      if !plan[i].remove {
        label Now:
        P.ValidLive(stores[i]);
        stores[i].Sync();
        P.ValidLive(stores[i]);
        P.LiveAddressed(stores[i]);
        assert Beside(st, stores[i]);
        st.StillValid@Now();
        forall j | 0 <= j < |stores| && j != i
          ensures stores[j].Valid() && stores[j].tree == old(stores[j].tree) && (j < i && !plan[j].remove ==> Synced(stores[j]))
        {
          assert Beside(stores[j], stores[i]);
          stores[j].StillValid@Now();
        }
        ExtendsTrans(old(st.cache.db.data), old@Now(st.cache.db.data), st.cache.db.data);
      }
    }
  }

  /** What the trie answers now is what it was last synced with. */
  ghost predicate Synced(t: Trie)
    reads t
  {
    t.syncTree == t.tree && t.syncBinds == t.binds && t.prevRoot == t.root
  }

  lemma SyncedOnDisk(t: Trie)
    requires t.Valid() && Synced(t)
    ensures Rooted(View(t.cache.env, map[], t.cache.db.data), t.root, t.tree, t.binds)
    ensures OnDisk(t.cache.env, t.cache.db.data, t.tree)
  {
    hide Canon, Encode, Fetch, Fits, Holds, Represents, Coherent;
    P.ValidLive(t);
    RootPlain(t);
    PlainCanon(t.root);
    var w := View(t.cache.env, map[], t.cache.db.data);
    RootedAs(w, t.root, Canon(RootItem(t.cache.env, t.tree)), t.tree, t.binds);
  }

  /** A root leads to a trie whether it was reloaded or not. */
  lemma RootedAs(w: View, r: Item, r': Item, t: Tree, m: Binds)
    requires Rooted(w, r, t, m) && Plain(r') && Canon(r') == Canon(r)
    ensures Rooted(w, r', t, m)
  {
  }

  /** What was written back earlier stays. */
  lemma OnDiskStays(e: Env, data: Data, data': Data, t: Tree)
    requires Addressed(e, data) && Addressed(e, data') && Extends(data, data') && OnDisk(e, data, t)
    ensures OnDisk(e, data', t)
  {
    hide Rooted, Addressed, Extends, Fetch;
    CoherentNone(e, data);
    CoherentExtends(e, map[], data, data');
    var m :| Rooted(View(e, map[], data), Canon(RootItem(e, t)), t, m);
    RootedSame(View(e, map[], data), View(e, map[], data'), Canon(RootItem(e, t)), t, m);
  }

  lemma CoherentNone(e: Env, data: Data)
    requires Addressed(e, data)
    ensures Coherent(e, map[], data)
  {
  }

  /** The code is there as well. */
  lemma CodeThere(t: Trie, code: Bytes)
    requires t.Live() && code in t.cache.env.blobs && t.cache.env.hash(code) in t.cache.db.data
    ensures t.cache.db.data[t.cache.env.hash(code)] == code
  {
  }

  /** State.Sync: afterwards the database holds the state trie and every storage trie under their roots. */
  method SyncState(st: Trie, plan: seq<Cached>, stores: seq<Trie>)
    requires |plan| == |stores| && st.Valid() && Apart(st, stores) && forall i :: 0 <= i < |stores| ==> stores[i].Valid()
    modifies st, st.cache, st.cache.db, set s | s in stores, set s | s in stores :: s.cache
    ensures st.Valid() && Synced(st) && st.binds == old(st.binds) && st.tree == old(st.tree)
    ensures forall i :: 0 <= i < |stores| ==> stores[i].tree == old(stores[i].tree)
    ensures forall i :: 0 <= i < |stores| && !plan[i].remove ==> OnDisk(st.cache.env, st.cache.db.data, stores[i].tree)
    ensures Extends(old(st.cache.db.data), st.cache.db.data)
  {
    hide Trie.Valid, Addressed, Extends, OnDisk;
    ApartStore(st, stores);
    SyncAll(st, plan, stores);
    label Stored:
    P.ValidLive(st);
    st.Sync();
    P.ValidLive(st);
    P.LiveAddressed(st);
    ExtendsTrans(old(st.cache.db.data), old@Stored(st.cache.db.data), st.cache.db.data);
    forall i | 0 <= i < |stores| && !plan[i].remove ensures OnDisk(st.cache.env, st.cache.db.data, stores[i].tree) {
      assert Beside(st, stores[i]);
      stores[i].StillValid@Stored();
      SyncedOnDisk(stores[i]);
    }
  }

  lemma ApartStore(st: Trie, stores: seq<Trie>)
    requires Apart(st, stores)
    ensures st !in stores && forall s :: s in stores ==> s.cache != st.cache
  {
    forall s | s in stores ensures s != st && s.cache != st.cache {
      var i :| 0 <= i < |stores| && stores[i] == s;
      assert Beside(st, stores[i]);
    }
  }

  /** State.Update and State.Sync. */
  method WriteBack(st: Trie, plan: seq<Cached>) returns (st': Trie, stores: seq<Trie>)
    requires st.Valid() && StateOk(st.tree) && Apart(st, Stores(plan))
    requires forall i :: 0 <= i < |plan| ==> plan[i].store.Valid() && Flushable(st.cache.env, plan[i], plan[i].store.tree)
    requires PlanFits(st.cache.env, st.tree, plan, Trees(Stores(plan)))
    modifies st, st.cache, st.cache.db, set s | s in Stores(plan), set s | s in Stores(plan) :: s.cache
    ensures st'.Valid() && Synced(st') && st'.cache.db == st.cache.db && st'.cache.env == st.cache.env && |stores| == |plan|
    ensures st'.binds == Recorded(st.cache.env, old(st.binds), plan, Trees(stores))
    ensures forall i :: 0 <= i < |plan| && !plan[i].remove ==>
      && Done(st.cache.env, st.cache.db.data, plan[i], old(plan[i].store.tree), stores[i].tree)
      && OnDisk(st.cache.env, st.cache.db.data, stores[i].tree)
    ensures Extends(old(st.cache.db.data), st.cache.db.data)
  {
    hide Trie.Valid, StateOk, Flushable, Addressed, Extends, PlanFits, Recorded, Solid, P.Rebuildable, Done, OnDisk, Checked,
      Synced, Apart;
    ghost var starts := Trees(Stores(plan));
    stores := UpdateAll(st, plan);
    ApartStore(st, stores);
    st' := Check(st);
    ApartToo(st, st', stores);
    label Updated:
    SyncState(st', plan, stores);
    assert Trees(stores) == old@Updated(Trees(stores));
    ghost var d0, d1 := old@Updated(st.cache.db.data), st.cache.db.data;
    ExtendsTrans(old(st.cache.db.data), d0, d1);
    forall i | 0 <= i < |plan| && !plan[i].remove ensures Done(st.cache.env, d1, plan[i], starts[i], stores[i].tree) {
      DoneStays(st.cache.env, d0, d1, plan[i], starts[i], stores[i].tree);
    }
  }

  /** The check gives the trie back, or one with a cache of its own. */
  lemma ApartToo(st: Trie, st': Trie, stores: seq<Trie>)
    requires Apart(st, stores) && st'.cache.db == st.cache.db && st'.cache.env == st.cache.env
    requires st' == st || forall i :: 0 <= i < |stores| ==> st' != stores[i] && st'.cache != stores[i].cache
    ensures Apart(st', stores)
  {
  }

  // ------------------------------------------------------------------ reading back

  /**
   * GetStateObject in a state opened at a root: the nonce and the balance come back if they are in range, the code
   * and the storage in any case.
   */
  method Reopen(db: Database, env: Env, root: Item, addr: Bytes, ghost t: Tree, ghost m: Binds, ghost x: Cached, ghost s: Tree)
    returns (nonce: nat, balance: int, code: Bytes, store: Trie)
    requires Tame(env) && Addressed(env, db.data) && Rooted(View(env, map[], db.data), root, t, m)
    requires addr in m && m[addr] == RecordOf(env, x, s) && |m[addr]| < GO_MAX_LEN
    requires OnDisk(env, db.data, s) && x.code in env.blobs && env.hash(x.code) in db.data
    ensures nonce == x.nonce <==> x.nonce <= TWO63
    ensures balance == x.balance <==> x.balance >= 0
    ensures code == x.code && store.Valid() && store.tree == s && fresh(store) && fresh(store.cache)
  {
    hide Trie.Valid, Addressed, Tame, Rooted, RlpDecode;
    var st := new Trie.Open(db, env, root, t, m);
    P.ValidLive(st);
    var data := st.Get(addr);
    RecordRoundTrip(x.nonce, x.balance, RootItem(env, s), env.hash(x.code));
    var parts := RlpDecode(data).value;
    nonce, balance := parts.nonce, parts.balance;
    CodeThere(st, x.code);
    code := if parts.codeHash in db.data then db.data[parts.codeHash] else [];
    ghost var ms :| Rooted(View(env, map[], db.data), Canon(RootItem(env, s)), s, ms);
    store := new Trie.Open(db, env, parts.root, s, ms);
  }

  /** GetAddr on an opened storage trie. */
  method ReadCell(store: Trie, k: Bytes) returns (v: nat)
    requires store.Valid()
    modifies store.cache`nodes
    ensures store.Valid() && v == CellAt(store.tree, k)
  {
    hide Trie.Valid, Load, BigOf;
    P.ValidLive(store);
    var b := store.Get(k);
    CellIs(store.tree, store.binds, k);
    v := match Load(b) { case None => 0 case Some(x) => Abs(BigOf(x)) };
  }

  lemma CellIs(t: Tree, m: Binds, k: Bytes)
    requires Represents(t, m)
    ensures CellAt(t, k) == match Load(if k in m then m[k] else []) { case None => 0 case Some(x) => Abs(BigOf(x)) }
  {
    hide Lookup;
    KeyOfKeyPath(k);
    assert Lookup(t, KeyPath(k)) == Bindings.At(m, KeyPath(k));
    assert Load([]) == Some(Nil);
  }

  /** What a synced storage trie reads: no cell is invented, and without a cell that is 0 every cell is as written. */
  lemma FlushedReads(e: Env, t: Tree, cells: map<Bytes, nat>, s: Tree, k: Bytes)
    requires Flushed(e, t, cells, s) && StoreOk(t) && CellsOk(cells)
    ensures var want := if k in cells then cells[k] else CellAt(t, k);
      && (CellAt(s, k) == want || CellAt(s, k) == 0)
      && ((forall key :: key in cells ==> cells[key] != 0) ==> CellAt(s, k) == want)
  {
    hide CellAt, StoreOk, CellStep, Encodable;
    var order, trees :| Walk(e, t, cells, order, trees) && Covers(cells, order) && s == Checked(trees[|order|]);
    ChainOk(e, cells, order, trees, |order|);
    CheckedReads(trees[|order|]);
    ChainReads(e, cells, order, trees, |order|, k);
    assert order[..|order|] == order;
  }

  /**
   * A state that is written back and opened afresh at its new root reads every account as it was cached: nonce and
   * balance within the ranges the record keeps, the code, and the cells as the storage trie was left by its Sync.
   */
  method WriteBackAndReopen(st: Trie, plan: seq<Cached>, i: nat, k: Bytes)
    returns (nonce: nat, balance: int, code: Bytes, cell: nat)
    requires st.Valid() && StateOk(st.tree) && Apart(st, Stores(plan)) && i < |plan| && !plan[i].remove
    requires forall i :: 0 <= i < |plan| ==> plan[i].store.Valid() && Flushable(st.cache.env, plan[i], plan[i].store.tree)
    requires PlanFits(st.cache.env, st.tree, plan, Trees(Stores(plan)))
    requires forall i, j :: 0 <= i < j < |plan| ==> plan[i].addr != plan[j].addr
    modifies st, st.cache, st.cache.db, set s | s in Stores(plan), set s | s in Stores(plan) :: s.cache
    ensures nonce == plan[i].nonce <==> plan[i].nonce <= TWO63
    ensures balance == plan[i].balance <==> plan[i].balance >= 0
    ensures code == plan[i].code
    ensures exists s :: Flushed(st.cache.env, old(plan[i].store.tree), plan[i].cells, s) && cell == CellAt(s, k)
    ensures (forall key :: key in plan[i].cells ==> plan[i].cells[key] != 0) ==>
      cell == if k in plan[i].cells then plan[i].cells[k] else CellAt(old(plan[i].store.tree), k)
  {
    hide Trie.Valid, StateOk, Flushable, Addressed, Extends, PlanFits, Recorded, OnDisk, Apart, Rooted, Tame, Flushed, CellAt, RecordOf;
    ghost var e, x, start, m := st.cache.env, plan[i], plan[i].store.tree, st.binds;
    FlushableParts(e, x, start);
    var st', stores := WriteBack(st, plan);
    P.ValidLive(st');
    P.LiveAddressed(st');
    SyncedOnDisk(st');
    RecordedAt(e, m, plan, Trees(stores), x.addr);
    ghost var s := stores[i].tree;
    var store;
    nonce, balance, code, store := Reopen(st'.cache.db, st'.cache.env, st'.root, plan[i].addr, st'.tree, st'.binds, x, s);
    cell := ReadCell(store, k);
    FlushedReads(e, start, x.cells, s, k);
  }

  lemma FlushableParts(e: Env, x: Cached, t: Tree)
    requires Flushable(e, x, t)
    ensures Storable(e, x) && StoreOk(t)
  {
  }
}
