/** The root of a trie commits to its contents: equal roots mean equal tries, and conversely. */
module Commitment {
  import opened Bytes
  import opened HexPrefix
  import opened Rlp
  import opened Options
  import opened Tree
  import opened Bindings
  import opened Merkle

  lemma ParsedInjective(a: Bytes, b: Bytes)
    requires Parsed(a) == Parsed(b)
    ensures a == b
  {
    if Parsed(a).U8? {
      assert a == [a[0]] && b == [b[0]];
    }
  }

  /** Equal references name equal nodes, because the hash function does not collide on them. */
  lemma SameRefSameNode(e: Env, s: Tree, t: Tree)
    requires Tame(e) && Node(s) && Node(t) && Fits(e, s) && Fits(e, t)
    requires Canon(Ref(e, s)) == Canon(Ref(e, t))
    ensures s.Empty? <==> t.Empty?
    ensures !s.Empty? ==> Canon(NodeItem(e, s)) == Canon(NodeItem(e, t))
  {
    hide Encode, Tame;
    if !s.Empty? { RefForms(e, s); }
    if !t.Empty? { RefForms(e, t); }
    if !s.Empty? && !t.Empty? && Canon(Ref(e, s)).Raw? {
      assert InPlay(e, s) && InPlay(e, t);
      HashInjective(e, s, t);
    }
  }

  /** A trie in play without empty values. */
  ghost predicate Sound(e: Env, t: Tree) {
    Node(t) && Solid(t) && Fits(e, t)
  }

  lemma SoundParts(e: Env, t: Tree)
    requires Sound(e, t)
    ensures !t.Val?
    ensures t.Short? ==> (Partial(t.path) ==> Sound(e, t.child)) && (Partial(t.path) || Full(t.path))
    ensures t.Branch? ==> |t.kids| == 17 && (forall i :: 0 <= i < 16 ==> Sound(e, t.kids[i]))
    ensures t.Branch? ==> (t.kids[16].Val? || t.kids[16].Empty?) && Solid(t.kids[16])
  {
  }

  /** Equal nodes are equal trees, all the way down. */
  lemma {:induction false} SameNodeSameTree(e: Env, s: Tree, t: Tree)
    requires Tame(e) && Sound(e, s) && Sound(e, t)
    requires !s.Empty? && !t.Empty? && Canon(NodeItem(e, s)) == Canon(NodeItem(e, t))
    ensures s == t
    decreases s, 0
  {
    hide Tame, Canon, Sound, Ref, NodeItem, Partial, Full;
    SoundParts(e, s);
    SoundParts(e, t);
    SameShape(e, s, t);
    match s {
      case Void =>
      case Short(k, c) =>
        SameShort(e, s, t);
        if Partial(k) { SameRefSameTree(e, c, t.child); }
      case Branch(kids) =>
        forall i | 0 <= i < 17 ensures kids[i] == t.kids[i] {
          SameParts(e, s, t, i);
          if i < 16 {
            SameRefSameTree(e, kids[i], t.kids[i]);
          } else {
            SameValue(e, kids[i], t.kids[i]);
          }
        }
        assert kids == t.kids;
    }
  }

  lemma SameShape(e: Env, s: Tree, t: Tree)
    requires Tame(e) && Sound(e, s) && Sound(e, t)
    requires !s.Empty? && !t.Empty? && Canon(NodeItem(e, s)) == Canon(NodeItem(e, t))
    ensures s.Short? == t.Short? && s.Branch? == t.Branch? && s.Void? == t.Void?
  {
    hide Encode;
    RefForms(e, s);
    RefForms(e, t);
  }

  lemma SameValue(e: Env, s: Tree, t: Tree)
    requires (s.Val? || s.Empty?) && (t.Val? || t.Empty?) && Solid(s) && Solid(t)
    requires Canon(Ref(e, s)) == Canon(Ref(e, t))
    ensures s == t
  {
    ParsedInjective(StrOf(NodeItem(e, s)), StrOf(NodeItem(e, t)));
  }

  lemma SameShort(e: Env, s: Tree, t: Tree)
    requires s.Short? && t.Short? && Sound(e, s) && Sound(e, t)
    requires Canon(NodeItem(e, s)) == Canon(NodeItem(e, t))
    ensures s.path == t.path && Canon(Ref(e, s.child)) == Canon(Ref(e, t.child))
    ensures Full(s.path) ==> s.child == t.child
  {
    hide NodeItem, CompactEncode, Fits;
    SameParts(e, s, t, 0);
    SameParts(e, s, t, 1);
    ParsedInjective(CompactEncode(s.path), CompactEncode(t.path));
    CompactInjective(s.path, t.path);
    if Full(s.path) { SameValue(e, s.child, t.child); }
  }

  lemma SameParts(e: Env, s: Tree, t: Tree, i: int)
    requires Canon(NodeItem(e, s)) == Canon(NodeItem(e, t))
    requires (s.Short? && t.Short? && 0 <= i < 2) || (s.Branch? && t.Branch? && 0 <= i < |s.kids| == |t.kids|)
    ensures Canon(NodeItem(e, s).items[i]) == Canon(NodeItem(e, t).items[i])
    ensures s.Branch? ==> Canon(Ref(e, s.kids[i])) == Canon(Ref(e, t.kids[i]))
    ensures s.Short? && i == 1 ==> Canon(Ref(e, s.child)) == Canon(Ref(e, t.child))
    ensures s.Short? && i == 0 ==> Canon(PathText(s.path)) == Canon(PathText(t.path))
  {
    hide Ref, PathText;
    assert CanonAll(NodeItem(e, s).items)[i] == CanonAll(NodeItem(e, t).items)[i];
  }

  lemma {:induction false} SameRefSameTree(e: Env, s: Tree, t: Tree)
    requires Tame(e) && Sound(e, s) && Sound(e, t)
    requires Canon(Ref(e, s)) == Canon(Ref(e, t))
    ensures s == t
    decreases s, 1
  {
    hide Tame, Canon, Ref, NodeItem;
    SameRefSameNode(e, s, t);
    if !s.Empty? { SameNodeSameTree(e, s, t); }
  }

  /** The root is one to one with the trie. */
  lemma RootCommits(e: Env, s: Tree, t: Tree)
    requires Tame(e) && Sound(e, s) && Sound(e, t)
    ensures Canon(RootItem(e, s)) == Canon(RootItem(e, t)) <==> s == t
  {
    hide Tame, Encode, Solid;
    if Canon(RootItem(e, s)) == Canon(RootItem(e, t)) {
      if !s.Empty? { RefForms(e, s); }
      if !t.Empty? { RefForms(e, t); }
      if !s.Empty? && !t.Empty? {
        HashInjective(e, s, t);
        SameNodeSameTree(e, s, t);
      }
    }
  }

  /** Two canonical tries have the same root exactly when they have the same bindings. */
  lemma SameRootSameBindings(e: Env, s: Tree, t: Tree)
    requires Tame(e) && Canonical(s) && Canonical(t) && Sound(e, s) && Sound(e, t)
    ensures Canon(RootItem(e, s)) == Canon(RootItem(e, t)) <==> SameMap(s, t)
  {
    RootCommits(e, s, t);
    if SameMap(s, t) { CanonicalUnique(s, t); }
  }

  // ------------------------------------------------------------- roots in bytes

  /** The root of a trie with one key: the hash of a two-item list of 0x20 with the key, and the value. */
  lemma LeafRoot(e: Env, key: Bytes, v: Bytes)
    ensures RootItem(e, Insert(Empty, KeyPath(key), Val(v))) == Raw(e.hash(Encode(List([Text([0x20] + key), Text(v)]))))
  {
    hide KeyPath, CompactEncode, Encode;
    KeyLayout(key);
    var t := Short(KeyPath(key), Val(v));
    assert Insert(Empty, KeyPath(key), Val(v)) == t;
    assert Ref(e, Val(v)) == Text(v);
    assert NodeItem(e, t) == List([Text([0x20] + key), Text(v)]);
  }

  /** What a 17-item node holds for a value below one more nibble: a leaf, or its hash from 32 bytes on. */
  function LeafSlot(hash: Bytes -> Bytes, nibble: int, v: Bytes): Item
    requires 0 <= nibble < 16
  {
    var leaf := List([Text([0x30 + nibble]), Text(v)]);
    if |Encode(leaf)| >= 32 then Raw(hash(Encode(leaf))) else leaf
  }

  /** The root of a trie with two keys of one byte that part at once: the hash of a 17-item list with a leaf for each. */
  lemma ForkRoot(e: Env, a: byte, v: Bytes, b: byte, w: Bytes)
    requires a / 16 != b / 16
    ensures var items := seq(17, i =>
        if i == a / 16 then LeafSlot(e.hash, a % 16, v) else if i == b / 16 then LeafSlot(e.hash, b % 16, w) else Text([]));
      RootItem(e, Insert(Insert(Empty, KeyPath([a]), Val(v)), KeyPath([b]), Val(w))) == Raw(e.hash(Encode(List(items))))
  {
    hide KeyPath, CompactEncode, Encode;
    var p, q := KeyPath([a]), KeyPath([b]);
    ShortKey(a);
    ShortKey(b);
    var s := Short(p, Val(v));
    assert Insert(Empty, p, Val(v)) == s;
    assert Match(q, p) == 0;
    var t := Fork(p, Val(v), q, Val(w), 0);
    assert q[..0] == [] && Insert(s, q, Val(w)) == t;
    assert p[1..] == [a % 16, 16] && q[1..] == [b % 16, 16];
    LeafBelow(e, a % 16, v);
    LeafBelow(e, b % 16, w);
    assert Ref(e, Empty) == Text([]);
    var items := seq(17, i =>
      if i == a / 16 then LeafSlot(e.hash, a % 16, v) else if i == b / 16 then LeafSlot(e.hash, b % 16, w) else Text([]));
    assert NodeItem(e, t).items == items;
  }

  lemma ShortKey(a: byte)
    ensures KeyPath([a]) == [a / 16, a % 16, 16]
  {
    KeyPathLayout([a]);
    var k := KeyPath([a]);
    assert k[2 * 0] == a / 16 && k[2 * 0 + 1] == a % 16;
  }

  lemma LeafBelow(e: Env, nibble: int, v: Bytes)
    requires 0 <= nibble < 16
    ensures Ref(e, Short([nibble, 16], Val(v))) == LeafSlot(e.hash, nibble, v)
  {
    hide CompactEncode, Encode;
    CompactLayout([nibble, 16]);
    var c := CompactEncode([nibble, 16]);
    assert c == [0x30 + nibble];
    assert Ref(e, Val(v)) == Text(v);
    assert NodeItem(e, Short([nibble, 16], Val(v))) == List([Text([0x30 + nibble]), Text(v)]);
  }
}
