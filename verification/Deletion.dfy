/**
 * deleteState of ethtrie/trie.go as it is: where a branch collapses onto an extension it
 * reads the extension's child as a string, which loses a child that is stored inline.
 */
module Deletion {
  import opened Bytes
  import opened HexPrefix
  import opened Rlp
  import opened Options
  import opened Tree
  import opened Removal
  import opened Bindings
  import opened Merkle

  /** A node short enough to be stored in its parent. */
  predicate Inline(e: Env, c: Tree) {
    (c.Short? || c.Branch? || c.Void?) && |Encode(NodeItem(e, c))| < 32
  }

  /** What is left of a child read with Str(). */
  function Cut(e: Env, c: Tree): Tree {
    if Inline(e, c) then Empty else c
  }

  /** The node a branch becomes when deleteState finds slot j to be the only occupied one. */
  function CollapseAt(e: Env, kids: seq<Tree>, j: int): Tree
    requires 0 <= j < |kids|
  {
    if j == 16 then Short([16], kids[16])
    else
      match kids[j]
      case Branch(_) => Short([j], kids[j])
      case Short(k, c) => Short([j] + k, Cut(e, c))
      case _ => Void
  }

  ghost function CollapseAs(e: Env, kids: seq<Tree>): Tree {
    if j :| Only(kids, j) then CollapseAt(e, kids, j) else Branch(kids)
  }

  /** deleteState on a trie none of whose nodes was reloaded. */
  ghost function RemoveAs(e: Env, t: Tree, key: Path): Tree
    decreases t
  {
    if key == [] then Empty
    else
      match t
      case Short(k, c) =>
        if k == key then Empty else if Starts(k, key) then Join(k, RemoveAs(e, c, key[|k|..])) else t
      case Branch(kids) =>
        if 0 <= key[0] < |kids| then CollapseAs(e, kids[key[0] := RemoveAs(e, kids[key[0]], key[1..])]) else t
      case _ => Empty
  }

  /** No branch on the way to the key collapses onto an extension over an inline node. */
  ghost predicate CollapseKeeps(e: Env, t: Tree, key: Path)
    decreases t
  {
    if key == [] then true
    else
      match t
      case Short(k, c) => k != key && Starts(k, key) ==> CollapseKeeps(e, c, key[|k|..])
      case Branch(kids) =>
        0 <= key[0] < |kids| ==>
          && CollapseKeeps(e, kids[key[0]], key[1..])
          && SurvivorWhole(e, kids[key[0] := Remove(kids[key[0]], key[1..])])
      case _ => true
  }

  ghost predicate SurvivorWhole(e: Env, kids: seq<Tree>) {
    forall j :: Only(kids, j) ==> StaysWhole(e, kids[j])
  }

  predicate StaysWhole(e: Env, t: Tree) {
    t.Short? ==> !Inline(e, t.child)
  }

  lemma CollapseWhole(e: Env, kids: seq<Tree>)
    requires CanonicalKids(kids) && SurvivorWhole(e, kids)
    ensures CollapseAs(e, kids) == Collapse(kids)
  {
    if i :| Only(kids, i) {
      forall j | Only(kids, j) ensures j == i {}
    }
  }

  lemma RemoveKids(kids: seq<Tree>, key: Path)
    requires Canonical(Branch(kids)) && Full(key)
    ensures 0 <= key[0] < 17 && CanonicalKids(kids[key[0] := Remove(kids[key[0]], key[1..])])
    ensures |key| > 1 ==> Full(key[1..]) && key[0] < 16 && Canonical(kids[key[0]]) && !kids[key[0]].Val?
  {
    SuffixFull(key, 0);
    if |key| > 1 {
      SuffixFull(key, 1);
      RemoveCanonical(kids[key[0]], key[1..]);
    }
  }

  lemma {:induction false} KeepsIsRemove(e: Env, t: Tree, key: Path)
    requires Canonical(t) && !t.Val? && Full(key) && CollapseKeeps(e, t, key)
    ensures RemoveAs(e, t, key) == Remove(t, key)
    decreases t
  {
    CanonicalIsNode(t);
    match t {
      case Empty =>
      case Short(k, c) =>
        if k != key && Starts(k, key) {
          PartialBelow(t, key);
          KeepsIsRemove(e, c, key[|k|..]);
        }
      case Branch(kids) =>
        RemoveKids(kids, key);
        if |key| > 1 { KeepsIsRemove(e, kids[key[0]], key[1..]); }
        CollapseWhole(e, kids[key[0] := Remove(kids[key[0]], key[1..])]);
    }
  }

  // ------------------------------------------------------ what a collapse can lose

  lemma LookupCut(e: Env, kids: seq<Tree>, j: int, q: Path)
    requires Only(kids, j) && |kids| == 17 && q != [] && (j == 16 ==> kids[16].Val?) && (j < 16 ==> !kids[j].Val?)
    ensures Lookup(CollapseAt(e, kids, j), q) == None || Lookup(CollapseAt(e, kids, j), q) == Lookup(Branch(kids), q)
    ensures StaysWhole(e, kids[j]) ==> Lookup(CollapseAt(e, kids, j), q) == Lookup(Branch(kids), q)
    ensures j < 16 && kids[j].Short? && Inline(e, kids[j].child) ==> Lookup(CollapseAt(e, kids, j), q) == None
  {
    LookupJoin([j], kids[j], q);
    assert Starts([j], q) <==> q[0] == j;
    if kids[j].Short? {
      LookupPlace([j] + kids[j].path, Cut(e, kids[j].child), q);
      LookupPlace([j] + kids[j].path, kids[j].child, q);
    }
  }

  lemma CollapseLoses(e: Env, kids: seq<Tree>, q: Path)
    requires CanonicalKidsOrLossy(kids) && q != []
    ensures Lookup(CollapseAs(e, kids), q) == None || Lookup(CollapseAs(e, kids), q) == Lookup(Branch(kids), q)
  {
    if i :| Only(kids, i) {
      forall j | Only(kids, j) ensures j == i {}
      LookupCut(e, kids, i, q);
    }
  }

  predicate CanonicalKidsOrLossy(kids: seq<Tree>) {
    |kids| == 17 && (forall i :: 0 <= i < 16 ==> !kids[i].Val?) && (kids[16].Val? || kids[16].Empty?)
  }

  lemma {:induction false} RemoveAsNotVal(e: Env, t: Tree, key: Path)
    requires Node(t) && key != []
    ensures !RemoveAs(e, t, key).Val?
  {
  }

  ghost predicate Keeps(e: Env, t: Tree, key: Path) {
    forall q :: Full(q) && q != key ==> Lookup(RemoveAs(e, t, key), q) == Lookup(t, q)
  }

  /** The other keys survive a Delete exactly when no collapse meets an inline child. */
  lemma DeleteKeepsExactly(e: Env, t: Tree, key: Path)
    requires Canonical(t) && !t.Val? && Full(key)
    ensures Keeps(e, t, key) <==> CollapseKeeps(e, t, key)
  {
    if CollapseKeeps(e, t, key) {
      KeepsIsRemove(e, t, key);
      CanonicalIsNode(t);
      forall q | Full(q) && q != key ensures Lookup(RemoveAs(e, t, key), q) == Lookup(t, q) {
        LookupRemove(t, key, q);
      }
    } else {
      var q := LostKey(e, t, key);
    }
  }

  /** A key that a lossy collapse makes unreadable. */
  lemma {:induction false} LostKey(e: Env, t: Tree, key: Path) returns (q: Path)
    requires Canonical(t) && !t.Val? && Full(key) && !CollapseKeeps(e, t, key)
    ensures Full(q) && q != key && Lookup(t, q).Some? && Lookup(RemoveAs(e, t, key), q) == None
    decreases t
  {
    CanonicalIsNode(t);
    match t {
      case Short(k, c) =>
        PartialBelow(t, key);
        var r := LostKey(e, c, key[|k|..]);
        q := k + r;
        UnderPath(k, r);
        LookupJoin(k, RemoveAs(e, c, key[|k|..]), q);
        assert key == k + key[|k|..];
      case Branch(kids) =>
        RemoveKids(kids, key);
        var i := key[0];
        if |key| > 1 && !CollapseKeeps(e, kids[i], key[1..]) {
          var r := LostKey(e, kids[i], key[1..]);
          q := [i] + r;
          UnderPath([i], r);
          RemoveAsNotVal(e, kids[i], key[1..]);
          CollapseLoses(e, kids[i := RemoveAs(e, kids[i], key[1..])], q);
          SameHead(key, q);
        } else {
          if |key| > 1 { KeepsIsRemove(e, kids[i], key[1..]); }
          q := LostHere(e, kids, key);
        }
    }
  }

  lemma LostHere(e: Env, kids: seq<Tree>, key: Path) returns (q: Path)
    requires Canonical(Branch(kids)) && Full(key) && 0 <= key[0] < 17
    requires RemoveAs(e, kids[key[0]], key[1..]) == Remove(kids[key[0]], key[1..])
    requires CollapseKeeps(e, kids[key[0]], key[1..]) && !CollapseKeeps(e, Branch(kids), key)
    ensures Full(q) && q != key && Lookup(Branch(kids), q).Some? && Lookup(RemoveAs(e, Branch(kids), key), q) == None
  {
    hide Canonical, Node, Remove, Lookup, Inline;
    RemoveKids(kids, key);
    var kids' := kids[key[0] := Remove(kids[key[0]], key[1..])];
    assert !SurvivorWhole(e, kids') by { NotWhole(e, kids, key); }
    var j :| Only(kids', j) && !StaysWhole(e, kids'[j]);
    forall i | Only(kids', i) ensures i == j {}
    q := OnlyKey(e, kids', j);
    RemoveUnfolds(e, kids, key);
    LookupCollapse(kids', q);
    CanonicalIsNode(Branch(kids));
    LookupRemove(Branch(kids), key, q);
  }

  lemma NotWhole(e: Env, kids: seq<Tree>, key: Path)
    requires key != [] && 0 <= key[0] < |kids|
    requires CollapseKeeps(e, kids[key[0]], key[1..]) && !CollapseKeeps(e, Branch(kids), key)
    ensures !SurvivorWhole(e, kids[key[0] := Remove(kids[key[0]], key[1..])])
  {
  }

  lemma RemoveUnfolds(e: Env, kids: seq<Tree>, key: Path)
    requires key != [] && 0 <= key[0] < |kids|
    ensures Remove(Branch(kids), key) == Collapse(kids[key[0] := Remove(kids[key[0]], key[1..])])
    ensures RemoveAs(e, Branch(kids), key) == CollapseAs(e, kids[key[0] := RemoveAs(e, kids[key[0]], key[1..])])
  {
  }

  /** A key below the surviving child that its collapse cuts off. */
  lemma OnlyKey(e: Env, kids: seq<Tree>, j: int) returns (q: Path)
    requires CanonicalKids(kids) && Only(kids, j) && !StaysWhole(e, kids[j])
    ensures Full(q) && Lookup(Branch(kids), q).Some? && Lookup(CollapseAt(e, kids, j), q) == None
  {
    var r := SomeKey(kids[j]);
    q := [j] + r;
    UnderPath([j], r);
    LookupCut(e, kids, j, q);
  }

  // --------------------------------------------------------- tries of long values

  /** Every value has at least 32 bytes. */
  predicate Thick(t: Tree) {
    match t
    case Val(v) => |v| >= 32
    case Short(_, c) => Thick(c)
    case Branch(kids) => forall i :: 0 <= i < |kids| ==> Thick(kids[i])
    case _ => true
  }

  /** No value is empty. */
  predicate NonEmpty(t: Tree) {
    match t
    case Val(v) => v != []
    case Short(_, c) => NonEmpty(c)
    case Branch(kids) => forall i :: 0 <= i < |kids| ==> NonEmpty(kids[i])
    case _ => true
  }

  lemma {:induction false} ItemInList(items: seq<Item>, i: int)
    requires 0 <= i < |items|
    ensures |EncodeAll(items)| >= |Encode(items[i])|
  {
    if i > 0 { ItemInList(items[1..], i - 1); }
  }

  lemma LongPart(items: seq<Item>, i: int)
    requires 0 <= i < |items| && |Encode(items[i])| >= 32
    ensures |Encode(List(items))| >= 32
  {
    ItemInList(items, i);
  }

  lemma LongString(x: Item)
    requires (x.Raw? && |x.bs| >= 32) || (x.Text? && |x.s| >= 32)
    ensures |Encode(x)| >= 32
  {
  }

  /** A node with a long value anywhere below it is never stored inline. */
  lemma {:induction false} ThickLong(e: Env, t: Tree, q: Path)
    requires Tame(e) && Node(t) && Thick(t) && Fits(e, t) && Lookup(t, q).Some?
    ensures |Encode(NodeItem(e, t))| >= 32
    decreases t, 0
  {
    hide Encode;
    match t {
      case Short(k, c) =>
        ThickRef(e, c, q[|k|..]);
        LongPart(NodeItem(e, t).items, 1);
      case Branch(kids) =>
        ThickRef(e, kids[q[0]], q[1..]);
        LongPart(NodeItem(e, t).items, q[0]);
    }
  }

  lemma {:induction false} ThickRef(e: Env, t: Tree, q: Path)
    requires Tame(e) && (Node(t) || t.Val?) && Thick(t) && Fits(e, t) && Lookup(t, q).Some?
    ensures |Encode(Ref(e, t))| >= 32
    decreases t, 1
  {
    hide Encode;
    if t.Val? {
      LongString(NodeItem(e, t));
    } else {
      ThickLong(e, t, q);
      RefForms(e, t);
      LongString(Raw(HashOf(e, t)));
    }
  }

  // ------------------------------------------------------------- steps of deleteState

  /** t' binds what t binds except for the key. */
  ghost predicate Gone(t: Tree, key: Path, t': Tree) {
    Node(t') && forall q :: Full(q) ==> Lookup(t', q) == if q == key then None else Lookup(t, q)
  }

  /** Every two-item node met on the way is no longer than what is left of the key, as the slicing of the key demands. */
  predicate Guarded(t: Tree, key: Path)
    decreases t
  {
    if key == [] then true
    else
      match t
      case Short(k, c) => |k| <= |key| && (k != key && Starts(k, key) ==> Guarded(c, key[|k|..]))
      case Branch(kids) => 0 <= key[0] < |kids| ==> Guarded(kids[key[0]], key[1..])
      case _ => true
  }

  lemma JoinNode(k: Path, c: Tree)
    requires k != [] && Partial(k) && Node(c)
    ensures Node(Join(k, c)) && (Thick(c) ==> Thick(Join(k, c))) && (NonEmpty(c) ==> NonEmpty(Join(k, c)))
  {
    if c.Short? && Full(c.path) { UnderPath(k, c.path); }
  }

  lemma CollapseNode(e: Env, kids: seq<Tree>, j: int)
    requires Node(Branch(kids)) && 0 <= j < 17
    ensures Node(CollapseAt(e, kids, j))
    ensures Thick(Branch(kids)) ==> Thick(CollapseAt(e, kids, j))
    ensures NonEmpty(Branch(kids)) ==> NonEmpty(CollapseAt(e, kids, j))
  {
    assert Thick(Branch(kids)) ==> Thick(kids[j]);
    assert NonEmpty(Branch(kids)) ==> NonEmpty(kids[j]);
    if j < 16 && kids[j].Short? && Full(kids[j].path) {
      UnderPath([j], kids[j].path);
    }
  }

  /** In a canonical trie of long values no collapse meets an inline child. */
  lemma {:induction false} ThickKeeps(e: Env, t: Tree, key: Path)
    requires Tame(e) && Canonical(t) && !t.Val? && Thick(t) && Fits(e, t) && Full(key)
    ensures CollapseKeeps(e, t, key)
    decreases t
  {
    CanonicalIsNode(t);
    match t {
      case Empty =>
      case Short(k, c) =>
        if k != key && Starts(k, key) {
          PartialBelow(t, key);
          ThickKeeps(e, c, key[|k|..]);
        }
      case Branch(kids) =>
        RemoveKids(kids, key);
        if |key| > 1 { ThickKeeps(e, kids[key[0]], key[1..]); }
        ThickSurvivor(e, kids, key[0], Remove(kids[key[0]], key[1..]));
    }
  }

  lemma ThickSurvivor(e: Env, kids: seq<Tree>, i: int, x: Tree)
    requires Tame(e) && Canonical(Branch(kids)) && Thick(Branch(kids)) && Fits(e, Branch(kids))
    requires 0 <= i < 17
    ensures SurvivorWhole(e, kids[i := x])
  {
    var a, b :| 0 <= a < b < 17 && kids[a] != Empty && kids[b] != Empty;
    var kids' := kids[i := x];
    var other := if a == i then b else a;
    assert kids'[other] == kids[other] != Empty;
    forall j | Only(kids', j) ensures StaysWhole(e, kids'[j]) {
      assert j == other;
      ThickStays(e, kids[j]);
    }
  }

  lemma ThickStays(e: Env, t: Tree)
    requires Tame(e) && Canonical(t) && Thick(t) && Fits(e, t)
    ensures StaysWhole(e, t)
  {
    if t.Short? && t.child.Branch? {
      CanonicalIsNode(t.child);
      ThickLong(e, t.child, SomeKey(t.child));
    }
  }

  /** Every path down the tree fits into n nibbles, and values lie exactly there. */
  predicate Level(t: Tree, n: nat) {
    match t
    case Val(_) => n == 0
    case Short(k, c) => |k| <= n && Level(c, n - |k|)
    case Branch(kids) => n >= 1 && forall i :: 0 <= i < |kids| ==> Level(kids[i], n - 1)
    case _ => true
  }

  lemma {:induction false} LevelGuarded(t: Tree, key: Path)
    requires Level(t, |key|)
    ensures Guarded(t, key)
    decreases t
  {
    if key != [] {
      match t
      case Short(k, c) => if k != key && Starts(k, key) { LevelGuarded(c, key[|k|..]); }
      case Branch(kids) => if 0 <= key[0] < |kids| { LevelGuarded(kids[key[0]], key[1..]); }
      case _ =>
    }
  }

  lemma LevelCollapse(e: Env, kids: seq<Tree>, j: int, n: nat)
    requires 0 <= j < |kids| == 17 && Level(Branch(kids), n)
    ensures Level(CollapseAt(e, kids, j), n)
  {
    hide Inline;
    assert Level(kids[j], n - 1);
    if kids[j].Short? {
      assert n - |[j] + kids[j].path| == n - 1 - |kids[j].path|;
    }
  }

  lemma LevelPlace(k: Path, c: Tree, n: nat)
    requires |k| <= n && Level(c, n - |k|)
    ensures Level(Place(k, c), n) && (Thick(c) ==> Thick(Place(k, c))) && (NonEmpty(c) ==> NonEmpty(Place(k, c)))
  {
  }

  lemma ForkKeeps(k: Path, c: Tree, key: Path, v: Bytes, m: nat)
    requires m < |k| <= |key| && m < |key| && Level(c, |key| - |k|)
    ensures var f := Fork(k, c, key, Val(v), m);
      && Level(f, |key| - m) && (Thick(c) && |v| >= 32 ==> Thick(f)) && (NonEmpty(c) && v != [] ==> NonEmpty(f))
  {
    LevelPlace(k[m + 1..], c, |key| - m - 1);
    LevelPlace(key[m + 1..], Val(v), |key| - m - 1);
  }

  /** Insertion keeps keys of one length, values long, and values non-empty. */
  lemma {:induction false} InsertKeeps(t: Tree, key: Path, v: Bytes)
    requires Level(t, |key|)
    ensures var t' := Insert(t, key, Val(v));
      && Level(t', |key|) && (Thick(t) && |v| >= 32 ==> Thick(t')) && (NonEmpty(t) && v != [] ==> NonEmpty(t'))
    decreases t
  {
    if key != [] {
      match t
      case Short(k, c) =>
        var m := Match(key, k);
        if k != key {
          if m == |k| {
            InsertKeeps(c, key[m..], v);
            LevelPlace(key[..m], Insert(c, key[m..], Val(v)), |key|);
          } else if m < |key| {
            ForkKeeps(k, c, key, v, m);
            LevelPlace(key[..m], Fork(k, c, key, Val(v), m), |key|);
          }
        }
      case Branch(kids) =>
        if 0 <= key[0] < |kids| {
          InsertKeeps(kids[key[0]], key[1..], v);
          ReplaceKid(kids, key[0], Insert(kids[key[0]], key[1..], Val(v)), |key|);
        }
      case _ =>
    }
  }

  /** Keys of one length never run out before a stored path does. */
  lemma {:induction false} FixedLengthGuarded(t: Tree, key: Path)
    requires Canonical(t) && !t.Val? && Full(key)
    requires forall q :: Full(q) && Lookup(t, q).Some? ==> |q| == |key|
    ensures Guarded(t, key)
    decreases t
  {
    CanonicalIsNode(t);
    match t {
      case Empty =>
      case Short(k, c) =>
        assert |SomeKey(t)| == |key|;
        if k != key && Starts(k, key) {
          PartialBelow(t, key);
          forall q | Full(q) && Lookup(c, q).Some? ensures |q| == |key[|k|..]| {
            UnderPath(k, q);
            assert Lookup(t, k + q).Some?;
          }
          FixedLengthGuarded(c, key[|k|..]);
        }
      case Branch(kids) =>
        SuffixFull(key, 0);
        if |key| > 1 {
          SuffixFull(key, 1);
          var i := key[0];
          forall q | Full(q) && Lookup(kids[i], q).Some? ensures |q| == |key[1..]| {
            UnderPath([i], q);
            assert Lookup(t, [i] + q).Some?;
          }
          FixedLengthGuarded(kids[i], key[1..]);
        }
    }
  }

  // ----------------------------------------------------- every way a deletion can go

  /** No slot but j holds anything. */
  predicate Alone(kids: seq<Tree>, j: int) {
    0 <= j < |kids| && forall i :: 0 <= i < |kids| && i != j ==> kids[i] == Empty
  }

  function Pick(picks: seq<int>): int {
    if picks == [] then -1 else picks[0]
  }

  function Later(picks: seq<int>): seq<int> {
    if picks == [] then [] else picks[1..]
  }

  function CloseBranch(e: Env, kids: seq<Tree>, j: int): Tree {
    if 0 <= j < |kids| then CollapseAt(e, kids, j) else Branch(kids)
  }

  /**
   * deleteState with what it finds at each branch on the way: the slot it takes for the only occupied one, or
   * none. An empty slot that came back from the database counts as occupied, so a reloaded branch never collapses.
   */
  function RemoveBy(e: Env, t: Tree, key: Path, picks: seq<int>): Tree
    decreases t
  {
    if key == [] then Empty
    else
      match t
      case Short(k, c) =>
        if k == key then Empty else if Starts(k, key) then Join(k, RemoveBy(e, c, key[|k|..], picks)) else t
      case Branch(kids) =>
        if 0 <= key[0] < |kids|
        then CloseBranch(e, kids[key[0] := RemoveBy(e, kids[key[0]], key[1..], Later(picks))], Pick(picks))
        else t
      case _ => Empty
  }

  /** A slot is taken for the only occupied one only if all others are empty. */
  predicate Allowed(e: Env, t: Tree, key: Path, picks: seq<int>)
    decreases t
  {
    if key == [] then true
    else
      match t
      case Short(k, c) => k != key && Starts(k, key) ==> Allowed(e, c, key[|k|..], picks)
      case Branch(kids) =>
        0 <= key[0] < |kids| ==>
          && Allowed(e, kids[key[0]], key[1..], Later(picks))
          && var kids' := kids[key[0] := RemoveBy(e, kids[key[0]], key[1..], Later(picks))];
             (0 <= Pick(picks) < |kids| ==> Alone(kids', Pick(picks)))
      case _ => true
  }

  /** Whatever way the deletion goes, the nodes it puts are among the environment's strings. */
  ghost predicate Removable(e: Env, t: Tree, key: Path)
    decreases t
  {
    && (forall picks :: Allowed(e, t, key, picks) ==> Fits(e, RemoveBy(e, t, key, picks)))
    && (key == [] ||
        match t
        case Short(k, c) => k != key && Starts(k, key) ==> Removable(e, c, key[|k|..])
        case Branch(kids) => 0 <= key[0] < |kids| ==> Removable(e, kids[key[0]], key[1..])
        case _ => true)
  }

  lemma CloseNode(e: Env, kids: seq<Tree>, j: int)
    requires Node(Branch(kids))
    ensures Node(CloseBranch(e, kids, j))
    ensures Thick(Branch(kids)) ==> Thick(CloseBranch(e, kids, j))
    ensures NonEmpty(Branch(kids)) ==> NonEmpty(CloseBranch(e, kids, j))
    ensures forall n: nat :: Level(Branch(kids), n) ==> Level(CloseBranch(e, kids, j), n)
  {
    if 0 <= j < 17 {
      CollapseNode(e, kids, j);
      forall n: nat | Level(Branch(kids), n) ensures Level(CloseBranch(e, kids, j), n) { LevelCollapse(e, kids, j, n); }
    }
  }

  lemma ReplaceKid(kids: seq<Tree>, i: int, x: Tree, n: nat)
    requires 0 <= i < |kids|
    ensures var t, t' := Branch(kids), Branch(kids[i := x]);
      && (Thick(t) && (Thick(kids[i]) ==> Thick(x)) ==> Thick(t'))
      && (NonEmpty(t) && (NonEmpty(kids[i]) ==> NonEmpty(x)) ==> NonEmpty(t'))
      && (Level(t, n) && (Level(kids[i], n - 1) ==> Level(x, n - 1)) ==> Level(t', n))
  {
    var kids' := kids[i := x];
    assert forall j :: 0 <= j < |kids| && j != i ==> kids'[j] == kids[j];
  }

  /** Deletions keep the shape of tries, long values, and keys of one length. */
  lemma {:induction false} RemoveByNode(e: Env, t: Tree, key: Path, picks: seq<int>)
    requires Node(t) && Full(key)
    ensures var r := RemoveBy(e, t, key, picks);
      && Node(r) && (Thick(t) ==> Thick(r)) && (NonEmpty(t) ==> NonEmpty(r))
      && (Level(t, |key|) ==> Level(r, |key|))
    decreases t
  {
    match t {
      case Short(k, c) =>
        if k != key && Starts(k, key) {
          PartialBelow(t, key);
          RemoveByNode(e, c, key[|k|..], picks);
          JoinNode(k, RemoveBy(e, c, key[|k|..], picks));
        }
      case Branch(kids) =>
        SuffixFull(key, 0);
        var x := RemoveBy(e, kids[key[0]], key[1..], Later(picks));
        if |key| > 1 {
          SuffixFull(key, 1);
          RemoveByNode(e, kids[key[0]], key[1..], Later(picks));
        }
        ReplaceKid(kids, key[0], x, |key|);
        CloseNode(e, kids[key[0] := x], Pick(picks));
      case _ =>
    }
  }

  /** The survivor of a collapse is a two-item node over an inline child that binds something. */
  ghost predicate CutsOff(e: Env, t: Tree) {
    t.Short? && Inline(e, t.child) && exists q :: Lookup(t.child, q).Some?
  }

  lemma LookupClose(e: Env, kids: seq<Tree>, j: int, q: Path)
    requires Node(Branch(kids)) && (0 <= j < 17 ==> Alone(kids, j)) && Full(q)
    ensures var r := Lookup(CloseBranch(e, kids, j), q);
      if 0 <= j < 17 && CutsOff(e, kids[j]) then r == None else r == Lookup(Branch(kids), q)
  {
    SuffixFull(q, 0);
    if 0 <= j < 17 {
      LookupJoin([j], kids[j], q);
      assert Starts([j], q) <==> q[0] == j;
      if kids[j].Short? {
        LookupPlace([j] + kids[j].path, Cut(e, kids[j].child), q);
        LookupPlace([j] + kids[j].path, kids[j].child, q);
      }
    }
  }

  /** Deleting never invents or changes a binding, whichever way it goes. */
  lemma {:induction false} RemoveByLoses(e: Env, t: Tree, key: Path, picks: seq<int>, q: Path)
    requires Node(t) && Full(key) && Full(q) && Allowed(e, t, key, picks)
    ensures var r := Lookup(RemoveBy(e, t, key, picks), q); r == None || (q != key && r == Lookup(t, q))
    decreases t
  {
    match t {
      case Short(k, c) =>
        if k == key {
        } else if Starts(k, key) {
          PartialBelow(t, key);
          LookupJoin(k, RemoveBy(e, c, key[|k|..], picks), q);
          if Starts(k, q) {
            PartialBelow(t, q);
            RemoveByLoses(e, c, key[|k|..], picks, q[|k|..]);
          }
        } else {
          assert q == key ==> Lookup(t, q) == None;
        }
      case Branch(kids) =>
        SuffixFull(key, 0);
        SuffixFull(q, 0);
        SameHead(key, q);
        CloseBranchNode(e, kids, key, picks);
        LookupClose(e, kids[key[0] := RemoveBy(e, kids[key[0]], key[1..], Later(picks))], Pick(picks), q);
        if q[0] == key[0] && |key| > 1 {
          SuffixFull(key, 1);
          SuffixFull(q, 1);
          RemoveByLoses(e, kids[key[0]], key[1..], Later(picks), q[1..]);
        }
      case _ =>
    }
  }

  lemma CloseBranchNode(e: Env, kids: seq<Tree>, key: Path, picks: seq<int>)
    requires Node(Branch(kids)) && Full(key)
    ensures 0 <= key[0] < 17 && Node(Branch(kids[key[0] := RemoveBy(e, kids[key[0]], key[1..], Later(picks))]))
  {
    SuffixFull(key, 0);
    if |key| > 1 {
      SuffixFull(key, 1);
      RemoveByNode(e, kids[key[0]], key[1..], Later(picks));
    }
  }

  /** No collapse on the way cuts anything off. */
  ghost predicate WholeBy(e: Env, t: Tree, key: Path, picks: seq<int>)
    decreases t
  {
    if key == [] then true
    else
      match t
      case Short(k, c) => k != key && Starts(k, key) ==> WholeBy(e, c, key[|k|..], picks)
      case Branch(kids) =>
        0 <= key[0] < |kids| ==>
          && WholeBy(e, kids[key[0]], key[1..], Later(picks))
          && var kids' := kids[key[0] := RemoveBy(e, kids[key[0]], key[1..], Later(picks))];
             (0 <= Pick(picks) < |kids| ==> !CutsOff(e, kids'[Pick(picks)]))
      case _ => true
  }

  ghost predicate KeepsOthers(t: Tree, key: Path, t': Tree) {
    forall q :: Full(q) && q != key ==> Lookup(t', q) == Lookup(t, q)
  }

  lemma {:induction false} WholeKeeps(e: Env, t: Tree, key: Path, picks: seq<int>, q: Path)
    requires Node(t) && Full(key) && Full(q) && q != key && Allowed(e, t, key, picks) && WholeBy(e, t, key, picks)
    ensures Lookup(RemoveBy(e, t, key, picks), q) == Lookup(t, q)
    decreases t
  {
    match t {
      case Short(k, c) =>
        if k == key {
          LookupLeaf(c, k, q);
        } else if Starts(k, key) {
          PartialBelow(t, key);
          LookupJoin(k, RemoveBy(e, c, key[|k|..], picks), q);
          if Starts(k, q) {
            PartialBelow(t, q);
            assert q == k + q[|k|..] && key == k + key[|k|..];
            WholeKeeps(e, c, key[|k|..], picks, q[|k|..]);
          }
        }
      case Branch(kids) =>
        SuffixFull(key, 0);
        SuffixFull(q, 0);
        SameHead(key, q);
        CloseBranchNode(e, kids, key, picks);
        LookupClose(e, kids[key[0] := RemoveBy(e, kids[key[0]], key[1..], Later(picks))], Pick(picks), q);
        if q[0] == key[0] {
          if |key| > 1 {
            SuffixFull(key, 1);
            SuffixFull(q, 1);
            WholeKeeps(e, kids[key[0]], key[1..], Later(picks), q[1..]);
          }
        }
      case _ =>
    }
  }

  lemma {:induction false} NotWholeLoses(e: Env, t: Tree, key: Path, picks: seq<int>) returns (q: Path)
    requires Node(t) && Full(key) && Allowed(e, t, key, picks) && !WholeBy(e, t, key, picks)
    ensures Full(q) && q != key && Lookup(t, q).Some? && Lookup(RemoveBy(e, t, key, picks), q) == None
    decreases t
  {
    match t {
      case Short(k, c) =>
        PartialBelow(t, key);
        var r := NotWholeLoses(e, c, key[|k|..], picks);
        q := k + r;
        UnderPath(k, r);
        LookupJoin(k, RemoveBy(e, c, key[|k|..], picks), q);
        assert key == k + key[|k|..];
      case Branch(kids) =>
        CloseBranchNode(e, kids, key, picks);
        SuffixFull(key, 0);
        var i, x := key[0], RemoveBy(e, kids[key[0]], key[1..], Later(picks));
        if |key| > 1 && !WholeBy(e, kids[i], key[1..], Later(picks)) {
          SuffixFull(key, 1);
          var r := NotWholeLoses(e, kids[i], key[1..], Later(picks));
          q := [i] + r;
          UnderPath([i], r);
          SameHead(key, q);
          LookupClose(e, kids[i := x], Pick(picks), q);
        } else {
          q := CutKey(e, kids[i := x], Pick(picks));
          RemoveByLosesSlot(e, kids, key, picks, q);
          LookupClose(e, kids[i := x], Pick(picks), q);
        }
    }
  }

  /** What the slot's new content binds was bound before, under another key than the one deleted. */
  lemma RemoveByLosesSlot(e: Env, kids: seq<Tree>, key: Path, picks: seq<int>, q: Path)
    requires Node(Branch(kids)) && Full(key) && Full(q) && 0 <= key[0] < 17
    requires |key| > 1 ==> Allowed(e, kids[key[0]], key[1..], Later(picks))
    requires Lookup(Branch(kids[key[0] := RemoveBy(e, kids[key[0]], key[1..], Later(picks))]), q).Some?
    ensures q != key && Lookup(Branch(kids), q).Some?
  {
    SuffixFull(key, 0);
    SuffixFull(q, 0);
    SameHead(key, q);
    if q[0] == key[0] && |key| > 1 {
      SuffixFull(key, 1);
      SuffixFull(q, 1);
      RemoveByLoses(e, kids[key[0]], key[1..], Later(picks), q[1..]);
    }
  }

  /** A key below a survivor that its collapse cuts off. */
  lemma CutKey(e: Env, kids: seq<Tree>, j: int) returns (q: Path)
    requires Node(Branch(kids)) && 0 <= j < 17 && CutsOff(e, kids[j])
    ensures Full(q) && Lookup(Branch(kids), q).Some?
  {
    hide Inline, Lookup, Full;
    var k, c := kids[j].path, kids[j].child;
    var r :| Lookup(c, r).Some?;
    LookupUnder(k, c, r);
    BoundIsFull(kids[j], k + r);
    q := [j] + (k + r);
    LookupSlot(kids, j, k + r);
  }

  lemma LookupUnder(k: Path, c: Tree, r: Path)
    ensures Lookup(Short(k, c), k + r) == Lookup(c, r)
  {
    UnderPath(k, r);
  }

  lemma LookupSlot(kids: seq<Tree>, j: int, r: Path)
    requires 0 <= j < 17 == |kids|
    ensures Lookup(Branch(kids), [j] + r) == Lookup(kids[j], r)
    ensures j < 16 && Full(r) ==> Full([j] + r)
  {
    UnderPath([j], r);
  }

  /** However a deletion goes, the other keys survive exactly when no collapse on the way cuts a binding off. */
  lemma RemovalKeepsExactly(e: Env, t: Tree, key: Path, picks: seq<int>)
    requires Node(t) && Full(key) && Allowed(e, t, key, picks)
    ensures KeepsOthers(t, key, RemoveBy(e, t, key, picks)) <==> WholeBy(e, t, key, picks)
  {
    if WholeBy(e, t, key, picks) {
      forall q | Full(q) && q != key ensures Lookup(RemoveBy(e, t, key, picks), q) == Lookup(t, q) {
        WholeKeeps(e, t, key, picks, q);
      }
    } else {
      var q := NotWholeLoses(e, t, key, picks);
    }
  }

  /** On a way of reloaded branches nothing collapses, so nothing is lost. */
  lemma {:induction false} ReloadedKeeps(e: Env, t: Tree, key: Path)
    requires Node(t) && Full(key)
    ensures Allowed(e, t, key, []) && WholeBy(e, t, key, []) && KeepsOthers(t, key, RemoveBy(e, t, key, []))
  {
    NoPicks(e, t, key);
    RemovalKeepsExactly(e, t, key, []);
  }

  lemma {:induction false} NoPicks(e: Env, t: Tree, key: Path)
    ensures Allowed(e, t, key, []) && WholeBy(e, t, key, [])
    decreases t
  {
    if key != [] {
      match t
      case Short(k, c) => if k != key && Starts(k, key) { NoPicks(e, c, key[|k|..]); }
      case Branch(kids) => if 0 <= key[0] < |kids| { NoPicks(e, kids[key[0]], key[1..]); }
      case _ =>
    }
  }

  /** With long values every way a deletion can go takes one key and nothing else. */
  lemma {:induction false} ThickWhole(e: Env, t: Tree, key: Path, picks: seq<int>)
    requires Tame(e) && Node(t) && Thick(t) && Fits(e, t) && Full(key)
    requires Removable(e, t, key) && Allowed(e, t, key, picks)
    ensures WholeBy(e, t, key, picks)
    decreases t
  {
    match t {
      case Short(k, c) =>
        if k != key && Starts(k, key) {
          PartialBelow(t, key);
          ThickWhole(e, c, key[|k|..], picks);
        }
      case Branch(kids) =>
        CloseBranchNode(e, kids, key, picks);
        SuffixFull(key, 0);
        var kids' := kids[key[0] := RemoveBy(e, kids[key[0]], key[1..], Later(picks))];
        if |key| > 1 {
          SuffixFull(key, 1);
          ThickWhole(e, kids[key[0]], key[1..], Later(picks));
          RemoveByNode(e, kids[key[0]], key[1..], Later(picks));
        }
        if 0 <= Pick(picks) < 17 && CutsOff(e, kids'[Pick(picks)]) {
          var s := kids'[Pick(picks)];
          var q :| Lookup(s.child, q).Some?;
          SlotFits(e, kids, key, picks);
          ThickUnder(e, s, q);
        }
      case _ =>
    }
  }

  lemma ThickUnder(e: Env, t: Tree, q: Path)
    requires Tame(e) && t.Short? && Node(t) && Thick(t) && Fits(e, t) && Lookup(t.child, q).Some?
    ensures !Inline(e, t.child)
  {
    if t.child.Val? || t.child.Empty? {
    } else {
      ThickLong(e, t.child, q);
    }
  }

  lemma SlotFits(e: Env, kids: seq<Tree>, key: Path, picks: seq<int>)
    requires Full(key) && |kids| == 17 && 0 <= key[0] < 17 && Fits(e, Branch(kids))
    requires Removable(e, Branch(kids), key) && Allowed(e, Branch(kids), key, picks)
    ensures var kids' := kids[key[0] := RemoveBy(e, kids[key[0]], key[1..], Later(picks))];
      forall i :: 0 <= i < 17 ==> Fits(e, kids'[i])
  {
    assert Removable(e, kids[key[0]], key[1..]);
    assert Allowed(e, kids[key[0]], key[1..], Later(picks));
  }

  /** Both conditions under which Delete is right: long values, or a canonical trie in memory with nothing to lose. */
  lemma DeleteGone(e: Env, t: Tree, key: Path, t': Tree)
    requires Node(t) && Full(key)
    requires Canonical(t) && CollapseKeeps(e, t, key) && t' == RemoveAs(e, t, key)
    ensures Gone(t, key, t') && t' == Remove(t, key) && Canonical(t')
  {
    KeepsIsRemove(e, t, key);
    RemoveCanonical(t, key);
    CanonicalIsNode(t');
    forall q | Full(q) ensures Lookup(t', q) == if q == key then None else Lookup(t, q) {
      LookupRemove(t, key, q);
    }
  }

  // ------------------------------------------------------- a trie that loses two keys

  /** The trie of the keys 0100, 2344 and 2345 (in hex) with one-byte values. */
  function TinyFork(): Tree {
    Branch(Blank()[4 := Short([16], Val([97]))][5 := Short([16], Val([98]))])
  }

  function TinyTrie(): Tree {
    Branch(Blank()[0 := Short([1, 0, 0, 16], Val([120]))][2 := Short([3, 4], TinyFork())])
  }

  lemma {:induction false} EncodeBlanks(xs: seq<Item>)
    requires forall i :: 0 <= i < |xs| ==> xs[i] == Text([])
    ensures |EncodeAll(xs)| == |xs|
  {
    if xs != [] { EncodeBlanks(xs[1..]); }
  }

  lemma {:induction false} EncodeConcat(xs: seq<Item>, ys: seq<Item>)
    ensures EncodeAll(xs + ys) == EncodeAll(xs) + EncodeAll(ys)
  {
    if xs == [] {
      assert xs + ys == ys;
    } else {
      assert (xs + ys)[1..] == xs[1..] + ys;
      EncodeConcat(xs[1..], ys);
    }
  }

  lemma {:induction false} EncodeOne(x: Item)
    ensures EncodeAll([x]) == Encode(x)
  {
    assert EncodeAll([x][1..]) == [];
  }

  lemma TinyLeaf(e: Env, b: byte)
    requires 0 < b < 0x80
    ensures |Encode(Ref(e, Short([16], Val([b]))))| == 3
  {
    var x := NodeItem(e, Short([16], Val([b])));
    assert Flagged([16]) == [2, 0];
    assert CompactEncode([16]) == [Pair(2, 0)] + Pack([]) == [0x20];
    assert Ref(e, Val([b])) == NodeItem(e, Val([b])) == Text([b]);
    assert x == List([PathText([16]), Ref(e, Val([b]))]);
    assert x.items == [Text([0x20])] + [Text([b])];
    EncodeConcat([Text([0x20])], [Text([b])]);
    EncodeOne(Text([0x20]));
    EncodeOne(Text([b]));
  }

  lemma TwoInBlanks(xs: seq<Item>)
    requires |xs| == 17 && forall i :: 0 <= i < 17 && i != 4 && i != 5 ==> xs[i] == Text([])
    ensures |EncodeAll(xs)| == 15 + |Encode(xs[4])| + |Encode(xs[5])|
  {
    hide Encode, EncodeAll;
    EncodeBlanks(xs[..4]);
    EncodeBlanks(xs[6..]);
    EncodeConcat(xs[..4], [xs[4]] + ([xs[5]] + xs[6..]));
    EncodeConcat([xs[4]], [xs[5]] + xs[6..]);
    EncodeConcat([xs[5]], xs[6..]);
    EncodeOne(xs[4]);
    EncodeOne(xs[5]);
    assert xs == xs[..4] + ([xs[4]] + ([xs[5]] + xs[6..]));
  }

  lemma TinyForkInline(e: Env)
    ensures Inline(e, TinyFork())
  {
    hide EncodeAll;
    TinyLeaf(e, 97);
    TinyLeaf(e, 98);
    TwoInBlanks(NodeItem(e, TinyFork()).items);
  }

  lemma TinyCanonical()
    ensures Canonical(TinyFork()) && Canonical(TinyTrie())
    ensures Lookup(TinyFork(), [4, 16]) == Some([97])
    ensures Lookup(TinyTrie(), [2, 3, 4, 4, 16]) == Some([97])
  {
    var t, fork := TinyTrie(), TinyFork();
    assert Canonical(fork) by { assert fork.kids[4] != Empty && fork.kids[5] != Empty; }
    assert Canonical(t) by { assert t.kids[0] != Empty && t.kids[2] != Empty; }
    assert [4, 16][1..] == [16] && [16][1..] == [];
    LookupLeaf(Val([97]), [16], [16]);
    assert [2, 3, 4, 4, 16][1..] == [3, 4, 4, 16] && [3, 4, 4, 16][2..] == [4, 16] && [3, 4, 4, 16][..2] == [3, 4];
  }

  /** Deleting 0100 from the trie of 0100, 2344 and 2345 makes the other two unreadable. */
  lemma DeleteCanLose(e: Env)
    ensures var t, key := TinyTrie(), [0, 1, 0, 0, 16];
            && Canonical(t) && Full(key) && !Keeps(e, t, key)
            && Lookup(t, [2, 3, 4, 4, 16]) == Some([97])
            && Lookup(RemoveAs(e, t, key), [2, 3, 4, 4, 16]) == None
  {
    hide Canonical, Inline;
    var t, key, q := TinyTrie(), [0, 1, 0, 0, 16], [2, 3, 4, 4, 16];
    TinyCanonical();
    TinyForkInline(e);
    assert key[1..] == [1, 0, 0, 16] && RemoveAs(e, t.kids[0], key[1..]) == Empty;
    var kids' := t.kids[0 := Empty];
    RemoveUnfolds(e, t.kids, key);
    assert Only(kids', 2);
    forall j | Only(kids', j) ensures j == 2 {}
    LookupCut(e, kids', 2, q);
  }
}
