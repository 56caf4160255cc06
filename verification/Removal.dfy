/** deleteState of ethtrie/trie.go on trees, and its collapsing of nodes that lose their purpose. */
module Removal {
  import opened Bytes
  import opened HexPrefix
  import opened Options
  import opened Tree

  /** A two-item node over a changed child: two two-item nodes in a row become one. */
  function Join(k: Path, c: Tree): Tree {
    match c
    case Short(k2, c2) => Short(k + k2, c2)
    case _ => Short(k, c)
  }

  ghost predicate Only(kids: seq<Tree>, i: int) {
    0 <= i < |kids| && kids[i] != Empty && forall j :: 0 <= j < |kids| && j != i ==> kids[j] == Empty
  }

  /** A 17-item node with a single occupied slot becomes a two-item node. */
  ghost function Collapse(kids: seq<Tree>): Tree {
    if i :| Only(kids, i) then Join([i], kids[i]) else Branch(kids)
  }

  /** deleteState, when it recognises every empty slot. */
  ghost function Remove(t: Tree, key: Path): Tree
    decreases t
  {
    if key == [] then Empty
    else
      match t
      case Short(k, c) =>
        if k == key then Empty else if Starts(k, key) then Join(k, Remove(c, key[|k|..])) else t
      case Branch(kids) =>
        if 0 <= key[0] < |kids| then Collapse(kids[key[0] := Remove(kids[key[0]], key[1..])]) else t
      case _ => Empty
  }

  lemma LookupJoin(k: Path, c: Tree, q: Path)
    ensures Lookup(Join(k, c), q) == Lookup(Short(k, c), q)
  {
    if c.Short? {
      var k2 := c.path;
      if Starts(k + k2, q) {
        assert q[..|k|] == q[..|k + k2|][..|k|] == k;
        assert q[|k|..][..|k2|] == q[..|k + k2|][|k|..] == k2;
      }
      if Starts(k, q) && Starts(k2, q[|k|..]) {
        assert q[..|k + k2|] == q[..|k|] + q[|k|..][..|k2|];
        assert q[|k|..][|k2|..] == q[|k + k2|..];
      }
    }
  }

  lemma LookupCollapse(kids: seq<Tree>, q: Path)
    requires q != []
    ensures Lookup(Collapse(kids), q) == Lookup(Branch(kids), q)
  {
    if i :| Only(kids, i) {
      forall j | Only(kids, j) ensures j == i {}
      LookupJoin([i], kids[i], q);
      assert Starts([i], q) <==> q[0] == i;
    }
  }

  /** Get after Delete: the deleted key is unbound and every other key reads what it read before. */
  lemma {:induction false} LookupRemove(t: Tree, key: Path, q: Path)
    requires Node(t) && Full(key) && Full(q)
    ensures Lookup(Remove(t, key), q) == if q == key then None else Lookup(t, q)
    decreases t
  {
    match t {
      case Empty =>
      case Void =>
      case Short(k, c) =>
        if k == key {
          LookupLeaf(c, key, q);
        } else if Starts(k, key) {
          var c' := Remove(c, key[|k|..]);
          PartialBelow(t, key);
          if Starts(k, q) {
            PartialBelow(t, q);
            LookupRemove(c, key[|k|..], q[|k|..]);
          }
          LookupBelow(k, c, c', key, None, q);
          LookupJoin(k, c', q);
        }
      case Branch(kids) =>
        SuffixFull(q, 0);
        SuffixFull(key, 0);
        SameHead(key, q);
        LookupCollapse(kids[key[0] := Remove(kids[key[0]], key[1..])], q);
        if q[0] == key[0] && |key| > 1 {
          SuffixFull(key, 1);
          SuffixFull(q, 1);
          LookupRemove(kids[key[0]], key[1..], q[1..]);
        }
    }
  }

  /** A proper prefix of a full key is an extension, and what follows it is again a full key. */
  lemma PartialBelow(t: Tree, key: Path)
    requires Node(t) && t.Short? && Full(key) && Starts(t.path, key)
    ensures key != t.path ==> Partial(t.path) && Node(t.child) && Full(key[|t.path|..])
    ensures Partial(t.path) ==> key != t.path && Full(key[|t.path|..])
  {
    var k := t.path;
    if Full(k) {
      FullNotPrefix(k, key);
    } else {
      if |key| == |k| { FullNotPrefix(key, k); }
      SuffixFull(key, |k|);
    }
  }

  predicate CanonicalKids(kids: seq<Tree>) {
    && |kids| == 17
    && (forall i :: 0 <= i < 17 ==> Canonical(kids[i]) && (kids[i].Val? ==> i == 16))
    && (kids[16].Val? || kids[16].Empty?)
  }

  lemma JoinCanonical(k: Path, c: Tree)
    requires k != [] && Partial(k) && Canonical(c) && (c.Short? || c.Branch?)
    ensures Canonical(Join(k, c)) && Join(k, c).Short?
  {
    if c.Short? && Full(c.path) {
      UnderPath(k, c.path);
    }
  }

  lemma CollapseCanonical(kids: seq<Tree>, live: int)
    requires CanonicalKids(kids) && 0 <= live < 17 && kids[live] != Empty
    ensures var r := Collapse(kids); Canonical(r) && (r.Short? || r.Branch?)
  {
    if i :| Only(kids, i) {
      forall j | Only(kids, j) ensures j == i {}
      if i < 16 { JoinCanonical([i], kids[i]); }
    } else {
      assert !Only(kids, live);
      var j :| 0 <= j < 17 && j != live && kids[j] != Empty;
      var a, b := if j < live then j else live, if j < live then live else j;
      assert kids[a] != Empty && kids[b] != Empty;
    }
  }

  lemma {:induction false} RemoveCanonical(t: Tree, key: Path)
    requires Canonical(t) && !t.Val? && Full(key)
    ensures var r := Remove(t, key); Canonical(r) && !r.Val? && (t.Branch? ==> r != Empty)
    decreases t
  {
    CanonicalIsNode(t);
    match t {
      case Empty =>
      case Short(k, c) =>
        if k != key && Starts(k, key) {
          PartialBelow(t, key);
          RemoveCanonical(c, key[|k|..]);
          JoinCanonical(k, Remove(c, key[|k|..]));
        }
      case Branch(kids) =>
        SuffixFull(key, 0);
        if |key| > 1 {
          SuffixFull(key, 1);
          RemoveCanonical(kids[key[0]], key[1..]);
        }
        var r := kids[key[0] := Remove(kids[key[0]], key[1..])];
        var i, j :| 0 <= i < j < 17 && kids[i] != Empty && kids[j] != Empty;
        CollapseCanonical(r, if i == key[0] then j else i);
    }
  }

  /** Deleting a key that had just been added gives back the very same tree. */
  lemma RemoveUndoesInsert(t: Tree, key: Path, v: Bytes)
    requires Canonical(t) && !t.Val? && Full(key) && Lookup(t, key) == None
    ensures Remove(Insert(t, key, Val(v)), key) == t
  {
    CanonicalIsNode(t);
    var u := Insert(t, key, Val(v));
    InsertCanonical(t, key, v);
    CanonicalIsNode(u);
    RemoveCanonical(u, key);
    forall q | Full(q)
      ensures Lookup(Remove(u, key), q) == Lookup(t, q)
    {
      LookupInsert(t, key, v, q);
      LookupRemove(u, key, q);
    }
    CanonicalUnique(Remove(u, key), t);
  }
}
