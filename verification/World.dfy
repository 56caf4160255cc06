/**
 * The world state of ethstate: accounts cached as shared mutable objects over a trie, with snapshots. An account's
 * storage trie is the tree it holds; the state's own trie is the map of its bindings, since its keys have one length
 * and its values are long (Runs.DriveEvenly). That copies of tries stay apart is Runs.CopyIsolated.
 */
module World {
  import opened Bytes
  import opened Tree
  import opened Storage
  import M = Merkle
  import T = Trie
  import HexPrefix
  import Deletion

  /** Twenty bytes, as ethutil.Address leaves them. */
  type Address = Bytes

  /** What an account reads as, with a number for every storage cell. */
  datatype Acct = Acct(nonce: nat, balance: int, code: Bytes, storage: imap<Bytes, nat>)

  type Accounts = map<Address, Acct>

  ghost const NONE: Acct := Acct(0, 0, [], imap k: Bytes :: 0)

  ghost function Read(w: Accounts, a: Address): Acct {
    if a in w then w[a] else NONE
  }

  /** GetOrNewStateObject on what is read: an account that is not there reads as one with nothing. */
  ghost function Touch(w: Accounts, a: Address): (r: Accounts)
    ensures a in r
    ensures forall b :: Read(r, b) == Read(w, b)
  {
    if a in w then w else w[a := NONE]
  }

  /** Cached cells first, and the storage trie behind them. */
  ghost function Cells(cells: map<Bytes, nat>, t: Tree): imap<Bytes, nat> {
    imap k: Bytes :: CellOf(cells, t, k)
  }

  lemma NoCells()
    ensures Cells(map[], Empty) == NONE.storage
  {
    hide CellAt;
    forall k: Bytes ensures CellOf(map[], Empty, k) == 0 { NoCell(k); }
  }

  function CellOf(cells: map<Bytes, nat>, t: Tree, k: Bytes): nat {
    if k in cells then cells[k] else CellAt(t, k)
  }

  lemma CellsSame(cells: map<Bytes, nat>, t: Tree, cells': map<Bytes, nat>, t': Tree)
    requires forall k :: CellOf(cells, t, k) == CellOf(cells', t', k)
    ensures Cells(cells, t) == Cells(cells', t')
  {
    hide CellOf;
  }

  /** An account as the state trie holds it. */
  datatype Record = Record(nonce: nat, balance: int, code: Bytes, storage: Tree)

  ghost function Meaning(r: Record): Acct {
    Acct(r.nonce, r.balance, r.code, Cells(map[], r.storage))
  }

  /** The same account but for cells that may have been lost: those read 0. */
  ghost predicate Fewer(v: Acct, v': Acct) {
    && v'.nonce == v.nonce && v'.balance == v.balance && v'.code == v.code
    && v.storage.Keys == v'.storage.Keys
    && forall k :: k in v.storage ==> v'.storage[k] == v.storage[k] || v'.storage[k] == 0
  }

  // ----------------------------------------------------------------- account

  class StateObject {
    const address: Address
    var balance: int
    var nonce: nat
    var code: Bytes
    /** Cells written or read since the account was loaded, over the account's storage trie. */
    var storage: map<Bytes, nat>
    var committed: Tree
    var gasPool: int
    var removed: bool

    constructor (address: Address)
      ensures this.address == address && Value() == NONE && !removed && gasPool == 0
      ensures storage == map[] && committed == Empty
    {
      hide Cells;
      this.address, balance, nonce, code := address, 0, 0, [];
      storage, committed, gasPool, removed := map[], Empty, 0, false;
      new;
      NoCells();
    }

    constructor FromRecord(address: Address, data: Record)
      ensures this.address == address && !removed && gasPool == 0 && Value() == Meaning(data)
      ensures storage == map[] && committed == data.storage
    {
      this.address, balance, nonce, code := address, data.balance, data.nonce, data.code;
      storage, committed, gasPool, removed := map[], data.storage, 0, false;
    }

    ghost function Value(): Acct
      reads this
    {
      Acct(nonce, balance, code, Cells(storage, committed))
    }

    function Cell(key: Bytes): nat
      reads this
    {
      CellOf(storage, committed, key)
    }

    /** Keys are whole words, as the deletion's slicing of keys needs, and numbers can be printed. */
    predicate Sound()
      reads this
    {
      StoreOk(committed) && CellsOk(storage)
    }

    /** A read fills the cache, unless there is nothing to fill it with. */
    method GetStorage(k: Bytes) returns (v: nat)
      modifies this`storage
      ensures v == old(Cell(LeftPad(k, 32))) && Value() == old(Value())
    {
      hide CellAt, LeftPad;
      var key := LeftPad(k, 32);
      v := Cell(key);
      if key !in storage && v != 0 {
        storage := storage[key := v];
        CellsSame(storage, committed, old(storage), committed);
      }
    }

    method SetStorage(k: Bytes, v: nat)
      modifies this`storage
      ensures Cell(LeftPad(k, 32)) == v
      ensures forall key :: key != LeftPad(k, 32) ==> Cell(key) == old(Cell(key))
    {
      storage := storage[LeftPad(k, 32) := v];
    }

    /**
     * Writes cached cells into the storage trie in whatever order the map gives, deletes those that are 0, and checks
     * the trie. No cell is invented. Without a cell that is 0, or if every deletion keeps the other cells, the trie
     * then holds exactly what the account reads; Storage.ZeroCellExactly says when a deletion does.
     */
    method Sync(e: M.Env) returns (ghost order: seq<Bytes>, ghost trees: seq<Tree>)
      requires Sound()
      modifies this`committed
      ensures Sound() && Fewer(old(Value()), Value()) && Fewer(Value(), Meaning(Record(nonce, balance, code, committed)))
      ensures Chain(e, storage, order, trees) && trees[0] == old(committed) && committed == Checked(trees[|order|])
      ensures forall k :: k in order <==> k in storage
      ensures AllKeep(storage, order, trees) ==>
        Value() == old(Value()) && Meaning(Record(nonce, balance, code, committed)) == old(Value())
      ensures NoZero(storage) && old(Proper(committed)) ==> Proper(committed)
    {
      hide CellStep, StoreOk, Checked, AllKeep, CellAt, Proper;
      order, trees := [], [committed];
      var keys := storage.Keys;
      while keys != {}
        invariant keys <= storage.Keys && forall k :: k in order <==> k in storage && k !in keys
        invariant Chain(e, storage, order, trees) && trees[0] == old(committed) && committed == trees[|order|]
        decreases keys
      {
        var key :| key in keys;
        ChainOk(e, storage, order, trees, |order|);
        var next := WriteCell(e, committed, key, storage[key]);
        ChainMore(e, storage, order, trees, key, next);
        order, trees, committed := order + [key], trees + [next], next;
        keys := keys - {key};
      }
      ChainOk(e, storage, order, trees, |order|);
      CheckedReads(committed);
      if NoZero(storage) && Proper(trees[0]) {
        ProperChain(e, storage, order, trees, |order|);
        CheckedProper(committed);
      }
      committed := Checked(committed);
      FlushedCells(e, storage, order, trees, old(committed), committed);
    }

    method AddAmount(amount: int)
      modifies this`balance
      ensures balance == old(balance) + amount
    {
      balance := balance + amount;
    }

    method SubAmount(amount: int)
      modifies this`balance
      ensures balance == old(balance) - amount
    {
      balance := balance - amount;
    }

    /** Fails when the pool is too small; the pool itself is not charged. */
    method BuyGas(gas: nat, price: nat) returns (ok: bool)
      modifies this`balance
      ensures ok <==> gas <= gasPool
      ensures balance == if ok then old(balance) + gas * price else old(balance)
    {
      if gasPool < gas { return false; }
      AddAmount(gas * price);
      return true;
    }

    method RefundGas(gas: int, price: nat)
      modifies this`balance, this`gasPool
      ensures balance == old(balance) - gas * price && gasPool == old(gasPool) + gas
    {
      gasPool := gasPool + gas;
      balance := balance - gas * price;
    }

    /** A new object with everything but the removal mark. */
    method Copy() returns (o: StateObject)
      ensures fresh(o) && o.address == address && o.Value() == Value() && !o.removed && o.gasPool == gasPool
      ensures o.committed == committed && o.storage == storage
    {
      hide Cells;
      o := new StateObject(address);
      o.balance, o.nonce, o.code := balance, nonce, code;
      o.storage, o.committed, o.gasPool := storage, committed, gasPool;
    }
  }

  // ------------------------------------------------------------------- state

  class State {
    var trie: map<Address, Record>
    var objects: map<Address, StateObject>

    constructor (trie: map<Address, Record>)
      ensures this.trie == trie && objects == map[] && Valid()
    {
      this.trie, objects := trie, map[];
    }

    /** Objects are filed under their own address, so no two addresses share one. */
    ghost predicate Valid()
      reads this
    {
      forall a :: a in objects ==> objects[a].address == a
    }

    /** What every address reads as: the cached object if there is one, otherwise the trie. */
    ghost function View(): (w: Accounts)
      reads this, objects.Values
    {
      Overlay(trie, Values())
    }

    ghost function Values(): (w: Accounts)
      reads this, objects.Values
      ensures w.Keys == objects.Keys
    {
      map a | a in objects :: objects[a].Value()
    }

    /** GetStateObject and GetOrNewStateObject. */
    method GetOrNew(addr: Address) returns (o: StateObject)
      requires Valid()
      modifies this`objects
      ensures Valid() && addr in objects && o == objects[addr]
      ensures View() == Touch(old(View()), addr)
      ensures addr in old(objects) ==> objects == old(objects)
      ensures addr !in old(objects) ==> fresh(o) && !o.removed && objects == old(objects)[addr := o]
      ensures old(Calm()) ==> Calm()
      ensures old(Tidy()) ==> Tidy()
    {
      hide Cells, Meaning, CellAt, Overlay, Touch, StateObject.Value, StateObject.Sound, Calm, Tidy, Flushable;
      if addr in objects {
        o := objects[addr];
        ViewCached(addr);
        TouchSame(View(), addr);
        return;
      }
      if addr in trie {
        o := new StateObject.FromRecord(addr, trie[addr]);
      } else {
        o := new StateObject(addr);
      }
      objects := objects[addr := o];
      ViewGrown(addr);
      CalmGrown(addr);
    }

    twostate lemma ViewGrown(addr: Address)
      requires addr !in old(objects) && addr in objects && objects == old(objects)[addr := objects[addr]]
      requires trie == old(trie) && forall a :: a in old(objects) ==> unchanged(objects[a])
      requires objects[addr].Value() == if addr in trie then Meaning(trie[addr]) else NONE
      ensures View() == Touch(old(View()), addr)
    {
      hide Overlay, Touch, Meaning, StateObject.Value;
      assert Values() == old(Values())[addr := objects[addr].Value()];
      OverlayLoad(trie, old(Values()), addr);
    }

    /** Payments and nonces do not disturb calm. */
    twostate lemma StillCalm()
      requires objects == old(objects) && trie == old(trie)
      requires forall a :: a in objects ==>
        && objects[a].storage == old(objects[a].storage)
        && objects[a].committed == old(objects[a].committed)
        && objects[a].removed == old(objects[a].removed)
      ensures old(Calm()) ==> Calm()
      ensures old(Tidy()) ==> Tidy()
    {
      hide StoreOk, CellsOk, Proper;
    }

    twostate lemma CalmGrown(addr: Address)
      requires addr !in old(objects) && addr in objects && objects == old(objects)[addr := objects[addr]] && trie == old(trie)
      requires forall a :: a in old(objects) ==> unchanged(objects[a])
      requires !objects[addr].removed && objects[addr].storage == map[]
      requires objects[addr].committed == if addr in trie then trie[addr].storage else Empty
      ensures old(Calm()) ==> Calm()
      ensures old(Tidy()) ==> Tidy()
    {
      hide StoreOk, CellsOk, Proper;
      EmptyProper();
      EmptyOk();
    }

    /** A change to one cached object changes what its address reads as, and nothing else. */
    twostate lemma ObjectChanged(addr: Address)
      requires addr in objects && objects == old(objects) && trie == old(trie)
      requires forall a :: a in objects && a != addr ==> unchanged(objects[a])
      ensures View() == old(View())[addr := objects[addr].Value()]
      ensures addr in old(View()) && old(View())[addr] == old(objects[addr].Value())
    {
      hide Overlay, StateObject.Value, Cells;
      assert Values() == old(Values())[addr := objects[addr].Value()];
      OverlayPut(trie, old(Values()), addr, objects[addr].Value());
      OverlayCached(trie, old(Values()), addr);
    }

    lemma ViewCached(addr: Address)
      requires addr in objects
      ensures addr in View() && View()[addr] == objects[addr].Value()
    {
      hide Overlay, StateObject.Value;
      OverlayCached(trie, Values(), addr);
    }

    /** NewStateObject: a blank account, whatever was there before. */
    method NewObject(addr: Address) returns (o: StateObject)
      requires Valid()
      modifies this`objects
      ensures Valid() && fresh(o) && !o.removed && o.address == addr && objects == old(objects)[addr := o]
      ensures View() == old(View())[addr := NONE]
    {
      hide Overlay, Meaning, StateObject.Value;
      o := new StateObject(addr);
      objects := objects[addr := o];
      assert Values() == old(Values())[addr := NONE];
      OverlayPut(trie, old(Values()), addr, NONE);
    }

    /** A snapshot: the trie copied, and every cached object copied. */
    method Copy() returns (s: State)
      requires Valid()
      ensures fresh(s) && s.Valid() && fresh(s.objects.Values)
      ensures s.trie == trie && s.objects.Keys == objects.Keys && s.View() == View()
      ensures forall a :: a in objects ==> SameBut(s.objects[a], objects[a])
      ensures (Calm() ==> s.Calm()) && (Tidy() ==> s.Tidy())
    {
      hide Overlay, Meaning, StateObject.Value, StateObject.Sound, Calm, Tidy, Flushable;
      s := new State(trie);
      var keys := objects.Keys;
      while keys != {}
        invariant fresh(s) && s.Valid() && s.trie == trie
        invariant forall a :: a in s.objects ==> fresh(s.objects[a])
        invariant keys <= objects.Keys && s.objects.Keys == objects.Keys - keys
        invariant forall a :: a in s.objects ==> CopyOf(s.objects[a], objects[a])
        decreases keys
      {
        var k :| k in keys;
        var o := objects[k].Copy();
        s.objects := s.objects[k := o];
        keys := keys - {k};
      }
      assert s.Values() == Values();
      CopyCalm(this, s);
    }

    method Set(s: State)
      requires s.Valid()
      modifies this
      ensures Valid() && objects == old(s.objects) && trie == old(s.trie) && View() == old(s.View())
      ensures old(s.Calm()) ==> Calm()
      ensures old(s.Tidy()) ==> Tidy()
    {
      hide Overlay, StateObject.Value;
      trie, objects := s.trie, s.objects;
      assert Values() == old(s.Values());
    }

    method DeleteObject(o: StateObject)
      requires Valid()
      modifies this
      ensures Valid() && View() == old(View()) - {o.address}
      ensures objects == old(objects) - {o.address} && trie == old(trie) - {o.address}
    {
      hide Overlay, Meaning, StateObject.Value;
      trie := trie - {o.address};
      objects := objects - {o.address};
      assert Values() == old(Values()) - {o.address};
      OverlayDrop(old(trie), old(Values()), o.address);
    }

    /**
     * Flushes every cached account into the trie; those marked are deleted. A cell that is 0 is deleted from its
     * account's storage trie, which can lose others; in a calm state nothing is lost, and the trie alone then reads
     * as cache and trie did.
     */
    method Update(e: M.Env)
      requires Valid() && Flushable()
      modifies this, objects.Values`committed
      ensures Valid() && Flushable() && objects == old(objects) - old(Marked())
      ensures View().Keys == old(View()).Keys - old(Marked())
      ensures forall a :: a in View() ==> Fewer(old(View())[a], View()[a])
      ensures old(Calm()) ==> Calm() && View() == old(View()) && Overlay(trie, map[]) == View()
      ensures old(Tidy()) ==> Tidy() && Holds(trie, View())
    {
      hide Proper, Meaning, StateObject.Value, Flushed, Overlay, Fewer, StoreOk, CellsOk;
      if Calm() { CalmUnmarked(); }
      FlushAll(e);
      FlushedView(trie, old(trie), old(Values()), Values(), old(Marked()));
      if old(Calm()) {
        FlushedSame(trie, old(trie), old(Values()));
      }
    }

    lemma CalmUnmarked()
      requires Calm()
      ensures Marked() == {} && Flushable()
    {
    }

    lemma CalmKeeps(addr: Address)
      requires Calm() && addr in objects
      ensures !objects[addr].removed
    {
    }

    /** The loop of Update. */
    method FlushAll(e: M.Env)
      requires Valid() && Flushable()
      modifies this, objects.Values`committed
      ensures Valid() && Flushable() && objects == old(objects) - old(Marked())
      ensures Flushed(trie, old(trie), old(Values()), old(Marked()), {})
      ensures forall a :: a in objects ==> Fewer(old(Values())[a], Values()[a])
      ensures old(Calm()) ==> Calm() && Values() == old(Values()) && Exactly(trie, Values(), {})
      ensures old(Tidy()) ==> Tidy()
    {
      hide Meaning, StateObject.Value, State.View, Flushed, Fewer, StoreOk, CellsOk, Exactly, Left, State.Calm, State.Tidy, State.Flushable, Overlay, Cells,
        StateObject.Sound;
      LeftStarts(objects, Marked());
      var keys := objects.Keys;
      ghost var all, values, doomed, calm := objects, Values(), Marked(), Calm();
      FlushedStart(trie, values, doomed);
      ExactlyStart(trie, values);
      forall a | a in objects ensures Fewer(values[a], all[a].Value()) { FewerRefl(values[a]); }
      while keys != {}
        invariant Valid() && keys <= all.Keys && keys <= objects.Keys && Flushable()
        invariant forall a :: a in objects ==> a in all && objects[a] == all[a]
        invariant objects == Left(all, doomed, keys)
        invariant forall a :: a in all ==> Fewer(values[a], all[a].Value())
        invariant forall a :: a in keys ==> all[a].Value() == values[a]
        invariant calm ==> Calm() && objects == all && (forall a :: a in all ==> all[a].Value() == values[a]) && Exactly(trie, values, keys)
        invariant Flushed(trie, old(trie), values, doomed, keys)
        invariant old(Tidy()) ==> Tidy()
        decreases keys
      {
        var k :| k in keys;
        ghost var before, there := trie, objects;
        assert all[k].removed <==> k in doomed;
        if calm { CalmKeeps(k); }
        label Before:
        FlushOne(e, objects[k]);
        forall a | a in all && a != k ensures all[a].Value() == old@Before(all[a].Value()) {
          assert all[a] != all[k];
        }
        LeftStep(all, doomed, keys, there, objects, k);
        FlushedStep(before, trie, old(trie), values, doomed, keys, k);
        if calm { ExactlyStep(before, trie, values, keys, k); }
        keys := keys - {k};
      }
      LeftEnds(all, doomed);
    }

    method FlushOne(e: M.Env, o: StateObject)
      requires Valid() && Flushable() && o.address in objects && objects[o.address] == o
      modifies this, o`committed
      ensures Valid() && Flushable() && Fewer(old(o.Value()), o.Value())
      ensures o.removed ==> trie == old(trie) - {o.address} && objects == old(objects) - {o.address}
      ensures !o.removed ==> objects == old(objects) && o.address in trie && trie == old(trie)[o.address := trie[o.address]]
      ensures !o.removed ==> Fewer(old(o.Value()), Meaning(trie[o.address]))
      ensures old(Calm()) ==> Calm() && o.Value() == old(o.Value()) == Meaning(trie[o.address])
      ensures old(Tidy()) ==> Tidy()
    {
      hide Proper, Meaning, Fewer, StoreOk, CellsOk, Overlay, Chain, AllKeep, Cells, CellAt, State.View, State.Values;
      FewerRefl(o.Value());
      if o.removed {
        DeleteObject(o);
      } else {
        ghost var order, trees;
        order, trees := o.Sync(e);
        if old(Calm()) { NoZeroKeeps(e, o.storage, order, trees); }
        UpdateObject(o);
        FewerTrans(old(o.Value()), o.Value(), Meaning(trie[o.address]));
      }
    }

    method UpdateObject(o: StateObject)
      modifies this`trie
      ensures trie == old(trie)[o.address := Record(o.nonce, o.balance, o.code, o.committed)]
      ensures o.address in objects ==> View() == old(View())
    {
      hide Overlay, StateObject.Value;
      trie := trie[o.address := Record(o.nonce, o.balance, o.code, o.committed)];
      assert Values() == old(Values());
      if o.address in objects { OverlayShadow(old(trie), Values(), o.address, trie[o.address]); }
    }

    /** Storage keys are whole words in every account. */
    predicate Flushable()
      reads this, objects.Values
    {
      && (forall a :: a in objects ==> objects[a].Sound())
      && (forall a :: a in trie ==> StoreOk(trie[a].storage))
    }

    /** Nothing is marked for removal, and no cached cell is 0: as when accounts have only been loaded and paid. */
    ghost predicate Calm()
      reads this, objects.Values
    {
      Flushable() && forall a :: a in objects ==> !objects[a].removed && NoZero(objects[a].storage)
    }

    /** Besides, every storage trie is canonical and holds cells as they are written: it is determined by what it reads as. */
    ghost predicate Tidy()
      reads this, objects.Values
    {
      && Calm() && (forall a :: a in trie ==> Proper(trie[a].storage))
      && forall a :: a in objects ==> Proper(objects[a].committed)
    }

    ghost function Marked(): set<Address>
      reads this, objects.Values
    {
      Doomed(objects)
    }
  }

  predicate NoZero(cells: map<Bytes, nat>) {
    forall k :: k in cells ==> cells[k] != 0
  }

  /** A copy has everything but the removal mark. */
  ghost predicate SameBut(o: StateObject, p: StateObject)
    reads o, p
  {
    o.gasPool == p.gasPool && o.storage == p.storage && o.committed == p.committed && !o.removed
  }

  ghost predicate CopyOf(o: StateObject, p: StateObject)
    reads o, p
  {
    o.address == p.address && o.Value() == p.Value() && SameBut(o, p)
  }

  // ---------------------------------------------------------- flushing cells

  /** One cell of the loop in Sync: Trie.Delete, going one of the ways it can, or Trie.Update. */
  method WriteCell(e: M.Env, t: Tree, key: Bytes, v: nat) returns (t': Tree)
    ensures CellStep(e, t, key, v, t')
  {
    if v == 0 {
      var s, k := T.Whole(t), HexPrefix.KeyPath(key);
      var picks: seq<int> := *;
      if !Deletion.Allowed(e, s, k, picks) { picks := []; }
      Deletion.NoPicks(e, s, k);
      t' := Deletion.RemoveBy(e, s, k, picks);
      OutcomeIs(e, s, k, picks);
    } else {
      t' := T.Written(t, key, CellBytes(v));
    }
  }

  lemma OutcomeIs(e: M.Env, t: Tree, k: HexPrefix.Path, picks: seq<int>)
    requires Deletion.Allowed(e, t, k, picks)
    ensures T.Outcome(e, t, k, Deletion.RemoveBy(e, t, k, picks))
  {
    hide Deletion.Allowed, Deletion.RemoveBy;
  }

  lemma CopyCalm(s: State, t: State)
    requires t.trie == s.trie && t.objects.Keys == s.objects.Keys
    requires forall a :: a in s.objects ==> SameBut(t.objects[a], s.objects[a])
    ensures (s.Calm() ==> t.Calm()) && (s.Tidy() ==> t.Tidy())
  {
    hide StoreOk, CellsOk, Proper;
  }

  lemma EmptyOk()
    ensures StoreOk(Empty) && CellsOk(map[])
  {
  }

  lemma TouchSame(w: Accounts, a: Address)
    requires a in w
    ensures Touch(w, a) == w
  {
  }

  lemma FewerRefl(v: Acct)
    ensures Fewer(v, v)
  {
  }

  lemma FewerTrans(u: Acct, v: Acct, w: Acct)
    requires Fewer(u, v) && Fewer(v, w)
    ensures Fewer(u, w)
  {
  }

  lemma NoZeroKeeps(e: M.Env, cells: map<Bytes, nat>, order: seq<Bytes>, trees: seq<Tree>)
    requires NoZero(cells) && Chain(e, cells, order, trees)
    ensures AllKeep(cells, order, trees)
  {
  }

  lemma FlushedCell(e: M.Env, cells: map<Bytes, nat>, order: seq<Bytes>, trees: seq<Tree>, t': Tree, k: Bytes)
    requires Chain(e, cells, order, trees) && CellsOk(cells) && StoreOk(trees[0]) && CellAt(t', k) == CellAt(trees[|order|], k)
    requires forall k :: k in order <==> k in cells
    ensures CellAt(t', k) == CellOf(cells, trees[0], k) || CellAt(t', k) == 0
    ensures AllKeep(cells, order, trees) ==> CellAt(t', k) == CellOf(cells, trees[0], k)
  {
    hide CellAt, CellStep, StoreOk, AllKeep, Chain, CellsOk;
    assert order[..|order|] == order;
    ChainReads(e, cells, order, trees, |order|, k);
  }

  lemma FlushedCells(e: M.Env, cells: map<Bytes, nat>, order: seq<Bytes>, trees: seq<Tree>, t: Tree, t': Tree)
    requires Chain(e, cells, order, trees) && CellsOk(cells) && StoreOk(t) && trees[0] == t
    requires (forall k :: k in order <==> k in cells) && forall k :: CellAt(t', k) == CellAt(trees[|order|], k)
    ensures forall k :: CellOf(cells, t', k) == CellOf(cells, t, k) || CellOf(cells, t', k) == 0
    ensures forall k :: CellOf(map[], t', k) == CellOf(cells, t', k) || CellOf(map[], t', k) == 0
    ensures AllKeep(cells, order, trees) ==> Cells(cells, t') == Cells(cells, t) == Cells(map[], t')
  {
    hide CellAt, CellStep, StoreOk, AllKeep, CellsOk, Cells;
    forall k
      ensures CellAt(t', k) == CellOf(cells, t, k) || CellAt(t', k) == 0
      ensures AllKeep(cells, order, trees) ==> CellAt(t', k) == CellOf(cells, t, k)
    {
      FlushedCell(e, cells, order, trees, t', k);
    }
    if AllKeep(cells, order, trees) {
      CellsSame(cells, t', cells, t);
      CellsSame(map[], t', cells, t);
    }
  }

  // ------------------------------------------------------- tries and readings

  /** A trie with proper storage tries that alone reads as the accounts do. */
  ghost predicate Holds(trie: map<Address, Record>, w: Accounts) {
    (forall a :: a in trie ==> Proper(trie[a].storage)) && Overlay(trie, map[]) == w
  }

  /** There is one such trie. */
  lemma HoldsUnique(s: map<Address, Record>, t: map<Address, Record>, w: Accounts)
    requires Holds(s, w) && Holds(t, w)
    ensures s == t
  {
    hide Proper, CellAt;
    assert s.Keys == w.Keys == t.Keys;
    forall a | a in s ensures s[a] == t[a] {
      assert Meaning(s[a]) == w[a] == Meaning(t[a]);
      forall k: Bytes ensures CellAt(s[a].storage, k) == CellAt(t[a].storage, k) {
        assert Cells(map[], s[a].storage)[k] == Cells(map[], t[a].storage)[k];
      }
      ProperUnique(s[a].storage, t[a].storage);
    }
  }

  // ------------------------------------------------------- flushing accounts

  /** All cached accounts but those in `keys` have been flushed into the trie, and nothing else was touched. */
  ghost predicate Flushed(trie: map<Address, Record>, before: map<Address, Record>, values: Accounts, doomed: set<Address>, keys: set<Address>) {
    forall a ::
      if a in values && a !in keys then
        if a in doomed then a !in trie else a in trie && Fewer(values[a], Meaning(trie[a]))
      else (a in trie <==> a in before) && (a in trie ==> trie[a] == before[a])
  }

  /** The objects still there while some are yet to be flushed. */
  ghost function Left(all: map<Address, StateObject>, doomed: set<Address>, keys: set<Address>): map<Address, StateObject> {
    all - (doomed - keys)
  }

  lemma LeftStarts(all: map<Address, StateObject>, doomed: set<Address>)
    requires doomed <= all.Keys
    ensures Left(all, doomed, all.Keys) == all
  {
  }

  lemma LeftEnds(all: map<Address, StateObject>, doomed: set<Address>)
    ensures Left(all, doomed, {}) == all - doomed
  {
    assert doomed - {} == doomed;
  }

  lemma LeftStep(all: map<Address, StateObject>, doomed: set<Address>, keys: set<Address>,
                 now: map<Address, StateObject>, next: map<Address, StateObject>, k: Address)
    requires now == Left(all, doomed, keys) && k in keys
    requires next == if k in doomed then now - {k} else now
    ensures next == Left(all, doomed, keys - {k})
    ensures forall a :: a in next ==> a in all && next[a] == all[a]
    ensures keys <= now.Keys ==> keys - {k} <= next.Keys
  {
    assert doomed - (keys - {k}) == (doomed - keys) + (if k in doomed then {k} else {});
  }

  /** The accounts outside `keys` are in the trie as they read. */
  ghost predicate Exactly(trie: map<Address, Record>, values: Accounts, keys: set<Address>) {
    forall a :: a in values && a !in keys ==> a in trie && Meaning(trie[a]) == values[a]
  }

  lemma ExactlyStart(trie: map<Address, Record>, values: Accounts)
    ensures Exactly(trie, values, values.Keys)
  {
  }

  lemma ExactlyStep(trie: map<Address, Record>, trie': map<Address, Record>, values: Accounts, keys: set<Address>, k: Address)
    requires Exactly(trie, values, keys) && k in keys && k in values && k in trie'
    requires trie' == trie[k := trie'[k]] && Meaning(trie'[k]) == values[k]
    ensures Exactly(trie', values, keys - {k})
  {
    hide Meaning;
  }

  /** What reads as it does through the cache, cached values first. */
  ghost function Overlay(trie: map<Address, Record>, values: Accounts): Accounts {
    map a | a in values.Keys + trie.Keys :: if a in values then values[a] else Meaning(trie[a])
  }

  lemma FlushedView(trie: map<Address, Record>, before: map<Address, Record>, values: Accounts, values': Accounts, doomed: set<Address>)
    requires Flushed(trie, before, values, doomed, {}) && doomed <= values.Keys && values'.Keys == values.Keys - doomed
    requires forall a :: a in values' ==> Fewer(values[a], values'[a])
    ensures Overlay(trie, values').Keys == Overlay(before, values).Keys - doomed
    ensures forall a :: a in Overlay(trie, values') ==> Fewer(Overlay(before, values)[a], Overlay(trie, values')[a])
  {
    hide Meaning, Fewer;
    forall a | a in Overlay(trie, values') ensures Fewer(Overlay(before, values)[a], Overlay(trie, values')[a]) {
      if a !in values' { FewerRefl(Overlay(before, values)[a]); }
    }
  }

  lemma FlushedSame(trie: map<Address, Record>, before: map<Address, Record>, values: Accounts)
    requires Flushed(trie, before, values, {}, {}) && Exactly(trie, values, {})
    ensures Overlay(trie, values) == Overlay(before, values) == Overlay(trie, map[])
  {
    hide Meaning, Fewer;
  }

  lemma OverlayCached(trie: map<Address, Record>, values: Accounts, a: Address)
    requires a in values
    ensures a in Overlay(trie, values) && Overlay(trie, values)[a] == values[a]
  {
    hide Meaning;
  }

  /** The trie's own entry for a cached account does not show. */
  lemma OverlayShadow(trie: map<Address, Record>, values: Accounts, a: Address, v: Record)
    requires a in values
    ensures Overlay(trie[a := v], values) == Overlay(trie, values)
  {
    hide Meaning;
  }

  lemma OverlayPut(trie: map<Address, Record>, values: Accounts, a: Address, v: Acct)
    ensures Overlay(trie, values[a := v]) == Overlay(trie, values)[a := v]
  {
    hide Meaning;
  }

  lemma OverlayLoad(trie: map<Address, Record>, values: Accounts, a: Address)
    requires a !in values
    ensures Overlay(trie, values[a := if a in trie then Meaning(trie[a]) else NONE]) == Touch(Overlay(trie, values), a)
  {
    hide Meaning;
    OverlayPut(trie, values, a, if a in trie then Meaning(trie[a]) else NONE);
  }

  lemma OverlayDrop(trie: map<Address, Record>, values: Accounts, a: Address)
    ensures Overlay(trie - {a}, values - {a}) == Overlay(trie, values) - {a}
  {
    hide Meaning;
  }

  lemma FlushedStart(trie: map<Address, Record>, values: Accounts, doomed: set<Address>)
    ensures Flushed(trie, trie, values, doomed, values.Keys)
  {
  }

  lemma FlushedStep(trie: map<Address, Record>, trie': map<Address, Record>, before: map<Address, Record>, values: Accounts,
                    doomed: set<Address>, keys: set<Address>, k: Address)
    requires Flushed(trie, before, values, doomed, keys) && k in keys && k in values
    requires k in doomed ==> trie' == trie - {k}
    requires k !in doomed ==> k in trie' && trie' == trie[k := trie'[k]] && Fewer(values[k], Meaning(trie'[k]))
    ensures Flushed(trie', before, values, doomed, keys - {k})
  {
    hide Meaning, Fewer;
  }

  ghost function Doomed(objects: map<Address, StateObject>): set<Address>
    reads objects.Values
  {
    set a | a in objects && objects[a].removed
  }
}
