/** Whole runs on one trie: any sequence of calls answers as a plain map with a save point would. */
module Runs {
  import opened Bytes
  import opened HexPrefix
  import opened Options
  import opened Tree
  import opened Bindings
  import opened Merkle
  import opened Deletion
  import opened Trie
  import opened Rlp
  import opened Commitment
  import opened Paranoia

  datatype Act = Write(key: Bytes, value: Bytes) | Drop(key: Bytes) | Ask(key: Bytes) | Save | Back

  // ------------------------------------------------------------ what a map does

  /** A map with a saved copy. */
  datatype Point = Point(binds: Binds, saved: Binds)

  function Next(p: Point, a: Act): Point {
    match a
    case Write(key, value) => p.(binds := p.binds[key := value])
    case Drop(key) => p.(binds := p.binds - {key})
    case Ask(_) => p
    case Save => Point(p.binds, p.binds)
    case Back => Point(p.saved, p.saved)
  }

  function Reply(p: Point, a: Act): seq<Bytes> {
    if a.Ask? then [if a.key in p.binds then p.binds[a.key] else []] else []
  }

  /** The answers of the map to the questions among the acts, and where it ends. */
  function Answers(acts: seq<Act>, p: Point): seq<Bytes> {
    if acts == [] then [] else Reply(p, acts[0]) + Answers(acts[1..], Next(p, acts[0]))
  }

  function Last(acts: seq<Act>, p: Point): Point {
    if acts == [] then p else Last(acts[1..], Next(p, acts[0]))
  }

  // -------------------------------------------------------- what the runs assume

  /** The nodes that the run makes are among the environment's strings, whichever way its deletions go. */
  ghost predicate RunFits(e: Env, acts: seq<Act>, t: Tree, saved: Tree)
    decreases |acts|
  {
    if acts == [] then true
    else
      match acts[0]
      case Write(key, value) =>
        Fits(e, Written(t, key, value)) && RunFits(e, acts[1..], Written(t, key, value), saved)
      case Drop(key) =>
        && Removable(e, Whole(t), KeyPath(key))
        && forall t' :: Outcome(e, Whole(t), KeyPath(key), t') ==> RunFits(e, acts[1..], t', saved)
      case Ask(_) => RunFits(e, acts[1..], t, saved)
      case Save => RunFits(e, acts[1..], t, t)
      case Back => RunFits(e, acts[1..], saved, saved)
  }

  /** How an act changes the tree and the one last synced. */
  ghost predicate TreeStep(e: Env, t: Tree, saved: Tree, a: Act, t': Tree, saved': Tree) {
    match a
    case Write(key, value) => t' == Written(t, key, value) && saved' == saved
    case Drop(key) => Outcome(e, Whole(t), KeyPath(key), t') && saved' == saved
    case Ask(_) => t' == t && saved' == saved
    case Save => t' == saved' == t
    case Back => t' == saved' == saved
  }

  lemma RunFitsNow(e: Env, acts: seq<Act>, i: nat, t: Tree, saved: Tree)
    requires i < |acts| && RunFits(e, acts[i..], t, saved)
    ensures acts[i].Write? ==> Fits(e, Written(t, acts[i].key, acts[i].value))
    ensures acts[i].Drop? ==> Removable(e, Whole(t), KeyPath(acts[i].key))
  {
    hide Fits, Written, Removable, Whole;
    assert acts[i..][0] == acts[i];
  }

  lemma RunFitsNext(e: Env, acts: seq<Act>, i: nat, t: Tree, saved: Tree, t': Tree, saved': Tree)
    requires i < |acts| && RunFits(e, acts[i..], t, saved) && TreeStep(e, t, saved, acts[i], t', saved')
    ensures RunFits(e, acts[i + 1..], t', saved')
  {
    hide Fits, Written, Removable, Whole, Outcome;
    assert acts[i..][0] == acts[i] && acts[i..][1..] == acts[i + 1..];
  }

  lemma AnswersStep(acts: seq<Act>, i: nat, p: Point)
    requires i < |acts|
    ensures Answers(acts[i..], p) == Reply(p, acts[i]) + Answers(acts[i + 1..], Next(p, acts[i]))
    ensures Last(acts[i..], p) == Last(acts[i + 1..], Next(p, acts[i]))
  {
    hide Next, Reply;
    assert acts[i..][0] == acts[i] && acts[i..][1..] == acts[i + 1..];
  }

  lemma AnswersEnd(acts: seq<Act>, p: Point)
    ensures Answers(acts[|acts|..], p) == [] && Last(acts[|acts|..], p) == p
  {
  }

  /** Keys of any lengths, prefixes of others included, and no deletions. */
  predicate Plainly(a: Act) {
    !a.Drop? && (a.Write? ==> a.value != [0])
  }

  /** Keys of one length, and values neither empty nor the single byte 0. */
  predicate Evenly(a: Act, n: nat) {
    && (a.Write? || a.Drop? ==> |KeyPath(a.key)| == n)
    && (a.Write? ==> a.value != [] && a.value != [0])
  }

  predicate LongValue(a: Act) {
    a.Write? ==> |a.value| >= 32
  }

  // -------------------------------------------------------------------- runs

  /** Any run of Update, Get, Sync and Undo. A canonical trie stays one. */
  method Drive(t: Trie, acts: seq<Act>) returns (answers: seq<Bytes>)
    requires t.Valid() && forall i :: 0 <= i < |acts| ==> Plainly(acts[i])
    requires RunFits(t.cache.env, acts, t.tree, t.syncTree)
    modifies t, t.cache, t.cache.db
    ensures t.Valid() && Extends(old(t.cache.db.data), t.cache.db.data)
    ensures answers == Answers(acts, old(Point(t.binds, t.syncBinds)))
    ensures Point(t.binds, t.syncBinds) == Last(acts, old(Point(t.binds, t.syncBinds)))
    ensures old(Canonical(t.tree) && Canonical(t.syncTree)) ==> Canonical(t.tree) && Canonical(t.syncTree)
  {
    hide Trie.Valid, Trie.Live, Canonical, Fits, Written, RunFits, Answers, Last, Node, TreeStep, Follows, Reply, Extends, Next;
    ExtendsRefl(t.cache.db.data);
    answers := [];
    ghost var p, canonical := Point(t.binds, t.syncBinds), Canonical(t.tree) && Canonical(t.syncTree);
    assert acts[0..] == acts;
    for i := 0 to |acts|
      invariant t.Valid() && Extends(old(t.cache.db.data), t.cache.db.data)
      invariant RunFits(t.cache.env, acts[i..], t.tree, t.syncTree)
      invariant answers + Answers(acts[i..], Point(t.binds, t.syncBinds)) == Answers(acts, p)
      invariant Last(acts[i..], Point(t.binds, t.syncBinds)) == Last(acts, p)
      invariant canonical ==> Canonical(t.tree) && Canonical(t.syncTree)
    {
      label Now:
      ghost var e, t0, s0, p0 := t.cache.env, t.tree, t.syncTree, Point(t.binds, t.syncBinds);
      ValidLive(t);
      RunFitsNow(e, acts, i, t0, s0);
      AnswersStep(acts, i, p0);
      var more := Perform(t, acts[i]);
      RunFitsNext(e, acts, i, t0, s0, t.tree, t.syncTree);
      CanonicalStep(e, t0, s0, acts[i], t.tree, t.syncTree);
      FollowsNext(p0, acts[i], Point(t.binds, t.syncBinds));
      ExtendsTrans(old(t.cache.db.data), old@Now(t.cache.db.data), t.cache.db.data);
      answers := answers + more;
    }
    AnswersEnd(acts, Point(t.binds, t.syncBinds));
  }

  /** One call on a trie, and what it answers. */
  method Perform(t: Trie, a: Act) returns (more: seq<Bytes>)
    requires t.Valid()
    requires a.Write? ==> a.value != [0] && Fits(t.cache.env, Written(t.tree, a.key, a.value))
    requires a.Drop? ==> NonEmpty(t.tree) && Guarded(t.tree, KeyPath(a.key)) && Removable(t.cache.env, Whole(t.tree), KeyPath(a.key))
    modifies t, t.cache, t.cache.db
    ensures t.Valid() && Extends(old(t.cache.db.data), t.cache.db.data)
    ensures more == Reply(old(Point(t.binds, t.syncBinds)), a)
    ensures Follows(old(Point(t.binds, t.syncBinds)), a, Point(t.binds, t.syncBinds))
    ensures a.Drop? && old(Thick(t.tree)) ==> t.binds == old(t.binds) - {a.key}
    ensures TreeStep(t.cache.env, old(t.tree), old(t.syncTree), a, t.tree, t.syncTree)
  {
    hide Trie.Valid, Trie.Live, Thick, NonEmpty, Guarded, Removable, Outcome, Fits, Written, Canonical, KeyPath, Whole,
      KeepsOthers, CollapseKeeps, Extends;
    ExtendsRefl(t.cache.db.data);
    ValidLive(t);
    more := [];
    match a {
      case Write(key, value) => t.Update(key, value);
      case Drop(key) => t.Delete(key);
      case Ask(key) =>
        var v := t.Get(key);
        more := [v];
      case Save => t.Sync();
      case Back => t.Undo();
    }
  }

  lemma CanonicalStep(e: Env, t: Tree, saved: Tree, a: Act, t': Tree, saved': Tree)
    requires TreeStep(e, t, saved, a, t', saved') && !a.Drop? && Node(t)
    ensures Canonical(t) && Canonical(saved) ==> Canonical(t') && Canonical(saved')
  {
    if Canonical(t) && a.Write? { InsertCanonical(t, KeyPath(a.key), a.value); }
  }

  /** How a map may change: as the act says, except that a deletion may lose other keys too. */
  ghost predicate Follows(p: Point, a: Act, p': Point) {
    if a.Drop? then
      && p'.saved == p.saved && a.key !in p'.binds
      && forall k :: k in p'.binds ==> k in p.binds && p'.binds[k] == p.binds[k]
    else p' == Next(p, a)
  }

  /** A run of maps, one before each act and one at the end. */
  ghost predicate History(acts: seq<Act>, hist: seq<Point>) {
    |hist| == |acts| + 1 && forall i :: 0 <= i < |acts| ==> Follows(hist[i], acts[i], hist[i + 1])
  }

  function Replies(acts: seq<Act>, hist: seq<Point>): seq<Bytes>
    requires |hist| == |acts| + 1
  {
    if acts == [] then []
    else Replies(acts[..|acts| - 1], hist[..|acts|]) + Reply(hist[|acts| - 1], acts[|acts| - 1])
  }

  /**
   * Any run of Update, Delete, Get, Sync and Undo on keys of one length. Every answer is that of a map at that
   * moment; Sync changes no map, Undo restores the one of the last Sync, and only a deletion may lose other keys.
   * With values of 32 bytes or more nothing is lost.
   */
  method DriveEvenly(t: Trie, acts: seq<Act>, ghost n: nat) returns (answers: seq<Bytes>, ghost hist: seq<Point>)
    requires t.Valid() && Even(t.tree, n) && Even(t.syncTree, n)
    requires forall i :: 0 <= i < |acts| ==> Evenly(acts[i], n)
    requires RunFits(t.cache.env, acts, t.tree, t.syncTree)
    modifies t, t.cache, t.cache.db
    ensures t.Valid() && Even(t.tree, n) && Even(t.syncTree, n) && Extends(old(t.cache.db.data), t.cache.db.data)
    ensures History(acts, hist) && hist[0] == old(Point(t.binds, t.syncBinds)) && hist[|acts|] == Point(t.binds, t.syncBinds)
    ensures answers == Replies(acts, hist)
    ensures old(Thick(t.tree) && Thick(t.syncTree)) && (forall i :: 0 <= i < |acts| ==> LongValue(acts[i])) ==>
      forall i :: 0 <= i < |acts| ==> hist[i + 1] == Next(hist[i], acts[i])
  {
    hide Trie.Valid, Thick, Even, Fits, Written, Follows, Reply, Whole, Removable, Outcome, History, Replies, Node, RunFits, TreeStep, Evenly,
      Trie.Live, Next, LongValue, Extends;
    ExtendsRefl(t.cache.db.data);
    ReplaysNothing(acts, Point(t.binds, t.syncBinds));
    answers, hist := [], [Point(t.binds, t.syncBinds)];
    ghost var long := Thick(t.tree) && Thick(t.syncTree) && forall i :: 0 <= i < |acts| ==> LongValue(acts[i]);
    assert acts[0..] == acts;
    for i := 0 to |acts|
      invariant t.Valid() && Even(t.tree, n) && Even(t.syncTree, n) && Extends(old(t.cache.db.data), t.cache.db.data)
      invariant RunFits(t.cache.env, acts[i..], t.tree, t.syncTree)
      invariant |hist| == i + 1 && hist[0] == old(Point(t.binds, t.syncBinds)) && hist[i] == Point(t.binds, t.syncBinds)
      invariant History(acts[..i], hist) && answers == Replies(acts[..i], hist)
      invariant long ==> Thick(t.tree) && Thick(t.syncTree) && forall j :: 0 <= j < i ==> hist[j + 1] == Next(hist[j], acts[j])
    {
      label Now:
      var a := acts[i];
      ghost var t0 := t.tree;
      ghost var e, s0 := t.cache.env, t.syncTree;
      ValidLive(t);
      RunFitsNow(e, acts, i, t0, s0);
      EvenReady(t0, a, n);
      var more := Perform(t, a);
      RunFitsNext(e, acts, i, t0, s0, t.tree, t.syncTree);
      EvenAfter(e, t0, s0, a, t.tree, t.syncTree, n);
      ExtendsTrans(old(t.cache.db.data), old@Now(t.cache.db.data), t.cache.db.data);
      RepliesStep(acts, hist, Point(t.binds, t.syncBinds), i);
      FollowsNext(hist[i], a, Point(t.binds, t.syncBinds));
      answers, hist := answers + more, hist + [Point(t.binds, t.syncBinds)];
    }
    assert acts[..|acts|] == acts;
  }

  /** Keys of one length, and no empty values. */
  predicate Even(t: Tree, n: nat) {
    Level(t, n) && NonEmpty(t)
  }

  lemma EvenReady(t: Tree, a: Act, n: nat)
    requires Even(t, n) && Evenly(a, n)
    ensures a.Drop? ==> NonEmpty(t) && Guarded(t, KeyPath(a.key))
    ensures a.Write? ==> a.value != [0]
  {
    if a.Drop? { LevelGuarded(t, KeyPath(a.key)); }
  }

  lemma EvenAfter(e: Env, t: Tree, saved: Tree, a: Act, t': Tree, saved': Tree, n: nat)
    requires Node(t) && Even(t, n) && Even(saved, n) && Evenly(a, n) && TreeStep(e, t, saved, a, t', saved')
    ensures Even(t', n) && Even(saved', n)
    ensures Thick(t) && Thick(saved) && LongValue(a) ==> Thick(t') && Thick(saved')
  {
    if a.Write? || a.Drop? { WholeLevel(t, n); }
    if a.Write? {
      InsertKeeps(Whole(t), KeyPath(a.key), a.value);
    } else if a.Drop? {
      var picks :| Allowed(e, Whole(t), KeyPath(a.key), picks) && t' == RemoveBy(e, Whole(t), KeyPath(a.key), picks);
      RemoveByNode(e, Whole(t), KeyPath(a.key), picks);
    }
  }

  lemma RepliesStep(acts: seq<Act>, hist: seq<Point>, p: Point, i: nat)
    requires i < |acts| && |hist| == i + 1
    ensures Replies(acts[..i + 1], hist + [p]) == Replies(acts[..i], hist) + Reply(hist[i], acts[i])
    ensures History(acts[..i], hist) && Follows(hist[i], acts[i], p) ==> History(acts[..i + 1], hist + [p])
  {
    hide Follows, Reply;
    var a, h := acts[..i + 1], hist + [p];
    assert a[..i] == acts[..i] && h[..i + 1] == hist;
    if History(acts[..i], hist) && Follows(hist[i], acts[i], p) {
      forall j | 0 <= j < |a| ensures Follows(h[j], a[j], h[j + 1]) {
        if j < i { assert Follows(hist[j], acts[..i][j], hist[j + 1]); }
      }
    }
  }

  lemma ReplaysNothing(acts: seq<Act>, p: Point)
    ensures History(acts[..0], [p]) && Replies(acts[..0], [p]) == []
  {
  }

  lemma FollowsNext(p: Point, a: Act, p': Point)
    requires Follows(p, a, p')
    ensures !a.Drop? || p'.binds == p.binds - {a.key} ==> p' == Next(p, a)
  {
  }

  // -------------------------------------------------------------------- roots

  lemma RepresentsOne(t: Tree, m: Binds, m': Binds)
    requires Represents(t, m) && Represents(t, m')
    ensures m == m'
  {
    forall key ensures key in m <==> key in m' { AtKey(t, m, m', key); }
    forall key | key in m ensures m[key] == m'[key] { AtKey(t, m, m', key); }
  }

  lemma AtKey(t: Tree, m: Binds, m': Binds, key: Bytes)
    requires Represents(t, m) && Represents(t, m')
    ensures (key in m <==> key in m') && (key in m ==> m[key] == m'[key])
  {
    KeyOfKeyPath(key);
    assert Lookup(t, KeyPath(key)) == Bindings.At(m, KeyPath(key)) == Bindings.At(m', KeyPath(key));
  }

  /**
   * However two tries came about, by other orders of updates or by deletions that left them canonical, their roots
   * are equal exactly when their bindings are. So the order in which accounts are flushed cannot show in a root.
   */
  lemma RootIsBindings(s: Trie, t: Trie)
    requires s.Live() && t.Live() && s.cache.env == t.cache.env
    requires Canonical(s.tree) && Canonical(t.tree) && Solid(s.tree) && Solid(t.tree)
    ensures BytesOf(s.root) == BytesOf(t.root) <==> s.binds == t.binds
  {
    hide Tame, Coherent, Holds, Stored, Fits, Node, Solid, Canonical, Represents, Plain;
    var e := s.cache.env;
    RootBytes(e, s.tree, s.root);
    RootBytes(e, t.tree, t.root);
    SameBytes(s.root, t.root);
    RootCommits(e, s.tree, t.tree);
    if s.binds == t.binds { SameCanonical(s.tree, t.tree, s.binds); }
    if s.tree == t.tree { RepresentsOne(s.tree, s.binds, t.binds); }
  }

  /** Two runs of updates on new tries reach the same root exactly when they leave the same bindings. */
  method TwoRuns(db: Database, env: Env, a: seq<Act>, b: seq<Act>) returns (s: Trie, t: Trie)
    requires Tame(env) && Addressed(env, db.data)
    requires forall i :: 0 <= i < |a| ==> Plainly(a[i]) && (a[i].Write? ==> a[i].value != [])
    requires forall i :: 0 <= i < |b| ==> Plainly(b[i]) && (b[i].Write? ==> b[i].value != [])
    requires RunFits(env, a, Empty, Empty) && RunFits(env, b, Empty, Empty)
    modifies db
    ensures s.binds == Last(a, Point(map[], map[])).binds && t.binds == Last(b, Point(map[], map[])).binds
    ensures BytesOf(s.root) == BytesOf(t.root) <==> s.binds == t.binds
  {
    hide Tame, Addressed, Trie.Valid, Canonical, Solid, Last, Answers, RunFits;
    EmptyCanonical();
    s := new Trie(db, env);
    var x := Drive(s, a);
    ValidLive(s);
    LiveAddressed(s);
    label First:
    t := new Trie(db, env);
    var y := Drive(t, b);
    ValidLive(t);
    LiveAddressed(t);
    s.Undisturbed@First();
    LastNonEmpty(a, Point(map[], map[]));
    LastNonEmpty(b, Point(map[], map[]));
    SolidLive(s);
    SolidLive(t);
    RootIsBindings(s, t);
  }

  lemma EmptyCanonical()
    ensures Canonical(Empty)
  {
  }

  ghost predicate NoEmptyValues(m: Binds) {
    forall k :: k in m ==> m[k] != []
  }

  lemma {:induction false} LastNonEmpty(acts: seq<Act>, p: Point)
    requires NoEmptyValues(p.binds) && NoEmptyValues(p.saved)
    requires forall i :: 0 <= i < |acts| ==> !acts[i].Write? || acts[i].value != []
    ensures NoEmptyValues(Last(acts, p).binds)
    decreases |acts|
  {
    if acts != [] { LastNonEmpty(acts[1..], Next(p, acts[0])); }
  }

  lemma SolidLive(t: Trie)
    requires t.Live() && Canonical(t.tree) && NoEmptyValues(t.binds)
    ensures Solid(t.tree)
  {
    forall q ensures Lookup(t.tree, q) != Some([]) {
      if Lookup(t.tree, q).Some? {
        BoundIsFull(t.tree, q);
        assert Lookup(t.tree, q) == Bindings.At(t.binds, q);
      }
    }
    SolidIf(t.tree);
  }

  // ------------------------------------------------------------------- copies

  /**
   * A copy shares the database with the trie it was taken from, and that trie goes on with any run of Update, Delete,
   * Get, Sync and Undo. The copy still answers for the bindings at the time of the Copy.
   */
  method CopyIsolated(t: Trie, acts: seq<Act>, ghost n: nat) returns (copy: Trie)
    requires t.Valid() && Even(t.tree, n) && Even(t.syncTree, n)
    requires forall i :: 0 <= i < |acts| ==> Evenly(acts[i], n)
    requires RunFits(t.cache.env, acts, t.tree, t.syncTree)
    modifies t, t.cache, t.cache.db
    ensures copy.Live() && copy.binds == old(t.binds) && copy.root == old(t.root) && fresh(copy) && fresh(copy.cache)
  {
    hide Trie.Valid, Even, RunFits, Addressed;
    ValidLive(t);
    copy := t.Copy();
    label Copied:
    ghost var hist;
    var answers;
    answers, hist := DriveEvenly(t, acts, n);
    ValidLive(t);
    LiveAddressed(t);
    copy.Undisturbed@Copied();
  }
}
