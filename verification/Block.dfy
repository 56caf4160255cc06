/** A block over the world state: its transactions and its rewards, from ethchain/state_manager.go. */
module Block {
  import opened Bytes
  import opened World
  import opened Snapshot
  import opened Transition
  import opened Processing
  import M = Merkle

  const BLOCK_REWARD := 1_500_000_000_000_000_000
  const UNCLE_REWARD := 1_125_000_000_000_000_000
  const UNCLE_INCLUSION_REWARD := 187_500_000_000_000_000

  /** A transaction with what the code it calls would do to the state, the gas it would leave, and how it ends. */
  datatype Job = Job(tx: Tx, ops: seq<Op>, fails: bool, left: int)

  datatype Receipt = Receipt(tx: Tx, postState: Bytes, cumulative: int)

  ghost predicate AllSimple(w: Accounts, jobs: seq<Job>) {
    forall i :: 0 <= i < |jobs| ==> jobs[i].tx.IsMessage() && Simple(w, jobs[i].tx, jobs[i].fails)
  }

  function TxsOf(jobs: seq<Job>): seq<Tx> {
    seq(|jobs|, i requires 0 <= i < |jobs| => jobs[i].tx)
  }

  // ---------------------------------------------------------------- receipts

  /** How the i-th transaction ends, after those before it. */
  ghost function Ending(w: Accounts, cb: Address, pool: int, jobs: seq<Job>, i: nat): Err
    requires cb in w && i < |jobs|
  {
    EndOf(w, cb, pool, TxsOf(jobs[..i]), jobs[i].tx)
  }

  /** What is read after the first n transactions. */
  ghost function Reached(w: Accounts, cb: Address, pool: int, jobs: seq<Job>, n: nat): Accounts
    requires cb in w && n <= |jobs|
  {
    After(w, cb, pool, TxsOf(jobs[..n])).0
  }

  /** The gas that the first n transactions used, without those passed over for their nonce. */
  ghost function GasUsed(w: Accounts, cb: Address, pool: int, jobs: seq<Job>, n: nat): int
    requires cb in w && n <= |jobs|
  {
    if n == 0 then 0
    else
      var job, err := jobs[n - 1], Ending(w, cb, pool, jobs, n - 1);
      GasUsed(w, cb, pool, jobs, n - 1) + (if err == NonceErr then 0 else job.tx.gas - GasLeft(job.tx, err, job.left))
  }

  type Tries = seq<map<Address, Record>>

  /** After each transaction that was not passed over the trie alone reads as the accounts do; and it is proper. */
  ghost predicate Flushes(w: Accounts, cb: Address, pool: int, jobs: seq<Job>, tries: Tries, tidy: bool)
    requires cb in w
  {
    |tries| <= |jobs| && forall i :: 0 <= i < |tries| && Ending(w, cb, pool, jobs, i) != NonceErr ==>
      && Overlay(tries[i], map[]) == Reached(w, cb, pool, jobs, i + 1)
      && (tidy ==> Holds(tries[i], Reached(w, cb, pool, jobs, i + 1)))
  }

  /** The roots of the first tries are those of the receipts that came with the block. */
  ghost predicate RootsMatch(w: Accounts, cb: Address, pool: int, jobs: seq<Job>, tries: Tries, expected: seq<Receipt>,
                             root: map<Address, Record> -> Bytes)
    requires cb in w && |tries| <= |jobs|
  {
    forall i :: 0 <= i < |tries| && i < |expected| && Ending(w, cb, pool, jobs, i) != NonceErr ==>
      root(tries[i]) == expected[i].postState
  }

  /**
   * A block's receipts are right: for each transaction that is not passed over for its nonce and comes with a receipt,
   * the trie that reads as the accounts after it has the receipt's root.
   */
  ghost predicate ReceiptsRight(w: Accounts, cb: Address, pool: int, jobs: seq<Job>, expected: seq<Receipt>,
                                root: map<Address, Record> -> Bytes)
    requires cb in w
  {
    forall i :: 0 <= i < |jobs| && i < |expected| && Ending(w, cb, pool, jobs, i) != NonceErr ==>
      forall trie :: Holds(trie, Reached(w, cb, pool, jobs, i + 1)) ==> root(trie) == expected[i].postState
  }

  /** One receipt for each transaction that was not passed over, in order, with the root and the gas used up to it. */
  ghost predicate Receipted(w: Accounts, cb: Address, pool: int, jobs: seq<Job>, tries: Tries,
                            root: map<Address, Record> -> Bytes, receipts: seq<Receipt>, at: seq<nat>)
    requires cb in w && |tries| <= |jobs|
  {
    && |at| == |receipts|
    && (forall r, q :: 0 <= r < q < |at| ==> at[r] < at[q])
    && (forall r :: 0 <= r < |at| ==>
         at[r] < |tries| && receipts[r] == Receipt(jobs[at[r]].tx, root(tries[at[r]]), GasUsed(w, cb, pool, jobs, at[r] + 1)))
    && (forall i :: 0 <= i < |tries| ==> (i in at <==> Ending(w, cb, pool, jobs, i) != NonceErr))
  }

  /**
   * ProcessTransactions. A wrong nonce is skipped; any other failure counts as handled. The loop gives up exactly when
   * the root of the trie after a transaction differs from the one in the receipt that the block came with for it.
   */
  method ProcessTransactions(e: M.Env, state: State, coinbase: Address, jobs: seq<Job>, expected: seq<Receipt>,
                             root: map<Address, Record> -> Bytes)
    returns (ok: bool, receipts: seq<Receipt>, handled: seq<Tx>, ghost tries: Tries, ghost at: seq<nat>)
    requires state.Valid() && state.Calm() && coinbase in state.objects && AllSimple(state.View(), jobs)
    modifies state, state.objects.Values
    ensures state.Valid() && state.Calm() && coinbase in state.objects
    ensures fresh(state.objects.Values - old(state.objects.Values))
    ensures Settled(old(state.View()), state.View())
    ensures coinbase in old(state.View())
    ensures ok ==>
      (state.View(), handled) == Settle(old(state.View()), coinbase, old(state.objects[coinbase].gasPool), TxsOf(jobs))
    ensures |receipts| == |handled| && forall i :: 0 <= i < |receipts| ==> receipts[i].tx == handled[i]
    ensures var w, pool := old(state.View()), old(state.objects[coinbase].gasPool);
      && Flushes(w, coinbase, pool, jobs, tries, old(state.Tidy()))
      && (ok ==> |tries| == |jobs| && RootsMatch(w, coinbase, pool, jobs, tries, expected, root))
      && (ok ==> Receipted(w, coinbase, pool, jobs, tries, root, receipts, at))
      && (!ok ==> receipts == [] && 0 < |tries| && !RootsMatch(w, coinbase, pool, jobs, tries, expected, root))
      && (old(state.Tidy()) ==> (ok <==> ReceiptsRight(w, coinbase, pool, jobs, expected, root)))
  {
    hide Settled, Settle, Sum, NonNegative, Apply, Overlay, State.View, State.Values, StateObject.Value, TxsOf, StateObject.Sound, State.Calm,
      State.Tidy, State.Flushable, Cells, Meaning, Holds, Flushes, RootsMatch, ReceiptsRight, Receipted, GasUsed, Ending, Reached, After;
    ok, receipts, handled := true, [], [];
    tries, at := [], [];
    var total := 0;
    ghost var w, pool := state.View(), state.objects[coinbase].gasPool;
    ghost var tidy := state.Tidy();
    state.ViewCached(coinbase);
    SettledRefl(w);
    assert jobs[0..] == jobs;
    BehindNothing(Settle(w, coinbase, pool, TxsOf(jobs)));
    NothingYet(w, coinbase, pool, jobs, expected, root, tidy);
    for i := 0 to |jobs|
      invariant state.Valid() && state.Calm() && coinbase in state.objects && coinbase in state.View()
      invariant fresh(state.objects.Values - old(state.objects.Values)) && (tidy ==> state.Tidy())
      invariant Settled(w, state.View())
      invariant Settle(w, coinbase, pool, TxsOf(jobs))
             == Behind(handled, Settle(state.View(), coinbase, state.objects[coinbase].gasPool, TxsOf(jobs[i..])))
      invariant |receipts| == |handled| && forall j :: 0 <= j < |receipts| ==> receipts[j].tx == handled[j]
      invariant (state.View(), state.objects[coinbase].gasPool) == After(w, coinbase, pool, TxsOf(jobs[..i]))
      invariant |tries| == i && Flushes(w, coinbase, pool, jobs, tries, tidy)
      invariant RootsMatch(w, coinbase, pool, jobs, tries, expected, root)
      invariant Receipted(w, coinbase, pool, jobs, tries, root, receipts, at)
      invariant total == GasUsed(w, coinbase, pool, jobs, i)
    {
      var err, left := ProcessOne(e, state, coinbase, jobs, i, w, pool, handled, tidy);
      if err == NonceErr {
        Passed(w, coinbase, pool, jobs, tries, tidy, expected, root, receipts, at, state.trie);
        tries := tries + [state.trie];
        continue;
      }
      total := total + (jobs[i].tx.gas - left);
      var receipt := Receipt(jobs[i].tx, root(state.trie), total);
      TriesMore(w, coinbase, pool, jobs, tries, tidy, state.trie);
      if i < |expected| && expected[i].postState != receipt.postState {
        tries := tries + [state.trie];
        RootWrong(w, coinbase, pool, jobs, tries, tidy, expected, root);
        return false, [], [], tries, [];
      }
      ReceiptMore(w, coinbase, pool, jobs, tries, expected, root, receipts, at, state.trie);
      receipts, handled := receipts + [receipt], handled + [jobs[i].tx];
      tries, at := tries + [state.trie], at + [i];
    }
    SettleNone(state.View(), coinbase, state.objects[coinbase].gasPool, jobs, handled);
    if tidy { RootsRight(w, coinbase, pool, jobs, tries, expected, root); }
  }

  /** One turn of the loop up to its receipt: the transaction, and the flush unless it is passed over. */
  method ProcessOne(e: M.Env, state: State, coinbase: Address, jobs: seq<Job>, i: nat, ghost w: Accounts, ghost pool: int,
                    ghost handled: seq<Tx>, ghost tidy: bool)
    returns (err: Err, left: int)
    requires i < |jobs| && state.Valid() && state.Calm() && coinbase in state.objects && coinbase in w
    requires Settled(w, state.View()) && AllSimple(w, jobs) && (tidy ==> state.Tidy()) && coinbase in state.View()
    requires (state.View(), state.objects[coinbase].gasPool) == After(w, coinbase, pool, TxsOf(jobs[..i]))
    modifies state, state.objects.Values
    ensures state.Valid() && state.Calm() && coinbase in state.objects && (tidy ==> state.Tidy())
    ensures fresh(state.objects.Values - old(state.objects.Values))
    ensures Settled(w, state.View()) && coinbase in state.View()
    ensures (state.View(), state.objects[coinbase].gasPool) == After(w, coinbase, pool, TxsOf(jobs[..i + 1]))
    ensures Reached(w, coinbase, pool, jobs, i + 1) == state.View() && Ending(w, coinbase, pool, jobs, i) == err
    ensures GasUsed(w, coinbase, pool, jobs, i + 1)
         == GasUsed(w, coinbase, pool, jobs, i) + (if err == NonceErr then 0 else jobs[i].tx.gas - left)
    ensures err != NonceErr ==> Overlay(state.trie, map[]) == state.View() && (tidy ==> Holds(state.trie, state.View()))
    ensures Behind(handled, Settle(old(state.View()), coinbase, old(state.objects[coinbase].gasPool), TxsOf(jobs[i..])))
         == Behind(if err == NonceErr then handled else handled + [jobs[i].tx],
                   Settle(state.View(), coinbase, state.objects[coinbase].gasPool, TxsOf(jobs[i + 1..])))
  {
    hide Settled, Settle, Sum, NonNegative, Apply, Overlay, State.View, State.Values, StateObject.Value, TxsOf, StateObject.Sound, State.Calm,
      State.Tidy, State.Flushable, Cells, Meaning, Holds, GasUsed, Ending, Reached, After, GasLeft;
    ghost var u, p := state.View(), state.objects[coinbase].gasPool;
    SettledSimple(w, u, jobs[i]);
    SettleStep(u, coinbase, p, jobs, i, handled);
    err, left := RunJob(e, state, coinbase, jobs[i], w);
    state.ViewCached(coinbase);
    AfterStep(w, coinbase, pool, jobs, i, u, p, state.View(), err, jobs[i].left);
    if err != NonceErr { Flush(e, state); }
  }

  lemma NothingYet(w: Accounts, cb: Address, pool: int, jobs: seq<Job>, expected: seq<Receipt>,
                   root: map<Address, Record> -> Bytes, tidy: bool)
    requires cb in w
    ensures Flushes(w, cb, pool, jobs, [], tidy) && RootsMatch(w, cb, pool, jobs, [], expected, root)
    ensures Receipted(w, cb, pool, jobs, [], root, [], []) && GasUsed(w, cb, pool, jobs, 0) == 0
    ensures After(w, cb, pool, TxsOf(jobs[..0])) == (w, pool)
  {
    assert TxsOf(jobs[..0]) == [];
  }

  /** One more transaction from the front. */
  lemma AfterStep(w: Accounts, cb: Address, pool: int, jobs: seq<Job>, i: nat, u: Accounts, p: int, u': Accounts, err: Err, left: int)
    requires cb in w && cb in u && i < |jobs| && left == jobs[i].left
    requires (u, p) == After(w, cb, pool, TxsOf(jobs[..i])) && (u', err) == Apply(u, jobs[i].tx, cb, p)
    ensures After(w, cb, pool, TxsOf(jobs[..i + 1])) == (u', PoolAfter(jobs[i].tx, err, p))
    ensures Reached(w, cb, pool, jobs, i + 1) == u' && Ending(w, cb, pool, jobs, i) == err
    ensures GasUsed(w, cb, pool, jobs, i + 1) == GasUsed(w, cb, pool, jobs, i)
      + (if err == NonceErr then 0 else jobs[i].tx.gas - GasLeft(jobs[i].tx, err, left))
  {
    hide Apply, GasLeft;
    var txs := TxsOf(jobs[..i + 1]);
    assert txs[..i] == TxsOf(jobs[..i]) && txs[i] == jobs[i].tx;
  }

  /** A transaction that was passed over leaves no receipt. */
  lemma Passed(w: Accounts, cb: Address, pool: int, jobs: seq<Job>, tries: Tries, tidy: bool, expected: seq<Receipt>,
               root: map<Address, Record> -> Bytes, receipts: seq<Receipt>, at: seq<nat>, trie: map<Address, Record>)
    requires cb in w && |tries| < |jobs| && Ending(w, cb, pool, jobs, |tries|) == NonceErr
    requires Flushes(w, cb, pool, jobs, tries, tidy) && RootsMatch(w, cb, pool, jobs, tries, expected, root)
    requires Receipted(w, cb, pool, jobs, tries, root, receipts, at)
    ensures Flushes(w, cb, pool, jobs, tries + [trie], tidy) && RootsMatch(w, cb, pool, jobs, tries + [trie], expected, root)
    ensures Receipted(w, cb, pool, jobs, tries + [trie], root, receipts, at)
  {
    hide Ending, Reached, Holds, Overlay, GasUsed;
  }

  lemma FlushesWeaker(w: Accounts, cb: Address, pool: int, jobs: seq<Job>, tries: Tries, tidy: bool, weaker: bool)
    requires cb in w && Flushes(w, cb, pool, jobs, tries, tidy) && (weaker ==> tidy)
    ensures Flushes(w, cb, pool, jobs, tries, weaker)
  {
    hide Ending, Reached, Holds, Overlay;
  }

  lemma TriesMore(w: Accounts, cb: Address, pool: int, jobs: seq<Job>, tries: Tries, tidy: bool, trie: map<Address, Record>)
    requires cb in w && |tries| < |jobs| && Flushes(w, cb, pool, jobs, tries, tidy)
    requires Overlay(trie, map[]) == Reached(w, cb, pool, jobs, |tries| + 1)
    requires tidy ==> Holds(trie, Reached(w, cb, pool, jobs, |tries| + 1))
    ensures Flushes(w, cb, pool, jobs, tries + [trie], tidy)
  {
    hide Ending, Reached, Holds, Overlay;
  }

  lemma ReceiptMore(w: Accounts, cb: Address, pool: int, jobs: seq<Job>, tries: Tries, expected: seq<Receipt>,
                    root: map<Address, Record> -> Bytes, receipts: seq<Receipt>, at: seq<nat>, trie: map<Address, Record>)
    requires cb in w && |tries| < |jobs| && Ending(w, cb, pool, jobs, |tries|) != NonceErr
    requires RootsMatch(w, cb, pool, jobs, tries, expected, root) && Receipted(w, cb, pool, jobs, tries, root, receipts, at)
    requires |tries| < |expected| ==> root(trie) == expected[|tries|].postState
    ensures var i := |tries|;
      var receipt := Receipt(jobs[i].tx, root(trie), GasUsed(w, cb, pool, jobs, i + 1));
      && RootsMatch(w, cb, pool, jobs, tries + [trie], expected, root)
      && Receipted(w, cb, pool, jobs, tries + [trie], root, receipts + [receipt], at + [i])
  {
    hide Ending, GasUsed;
  }

  /** A trie whose root is not the receipt's makes the receipts wrong. */
  lemma RootWrong(w: Accounts, cb: Address, pool: int, jobs: seq<Job>, tries: Tries, tidy: bool, expected: seq<Receipt>,
                  root: map<Address, Record> -> Bytes)
    requires cb in w && 0 < |tries| && Flushes(w, cb, pool, jobs, tries, tidy)
    requires var i := |tries| - 1; i < |expected| && Ending(w, cb, pool, jobs, i) != NonceErr && root(tries[i]) != expected[i].postState
    ensures !RootsMatch(w, cb, pool, jobs, tries, expected, root)
    ensures tidy ==> !ReceiptsRight(w, cb, pool, jobs, expected, root)
  {
    hide Ending, Reached, Holds, Overlay;
  }

  lemma RootsRight(w: Accounts, cb: Address, pool: int, jobs: seq<Job>, tries: Tries, expected: seq<Receipt>,
                   root: map<Address, Record> -> Bytes)
    requires cb in w && |tries| == |jobs| && Flushes(w, cb, pool, jobs, tries, true)
    requires RootsMatch(w, cb, pool, jobs, tries, expected, root)
    ensures ReceiptsRight(w, cb, pool, jobs, expected, root)
  {
    hide Ending, Reached, Holds, Overlay;
    forall i | 0 <= i < |jobs| && i < |expected| && Ending(w, cb, pool, jobs, i) != NonceErr
      ensures forall trie :: Holds(trie, Reached(w, cb, pool, jobs, i + 1)) ==> root(trie) == expected[i].postState
    {
      forall trie | Holds(trie, Reached(w, cb, pool, jobs, i + 1)) ensures root(trie) == expected[i].postState {
        HoldsUnique(trie, tries[i], Reached(w, cb, pool, jobs, i + 1));
      }
    }
  }

  /** A result with more transactions handled before it. */
  ghost function Behind(handled: seq<Tx>, r: (Accounts, seq<Tx>)): (Accounts, seq<Tx>) {
    (r.0, handled + r.1)
  }

  lemma SettleNone(w: Accounts, cb: Address, pool: int, jobs: seq<Job>, handled: seq<Tx>)
    requires cb in w
    ensures Behind(handled, Settle(w, cb, pool, TxsOf(jobs[|jobs|..]))) == (w, handled)
  {
    assert TxsOf(jobs[|jobs|..]) == [] && handled + [] == handled;
  }

  lemma BehindNothing(r: (Accounts, seq<Tx>))
    ensures Behind([], r) == r
  {
    assert [] + r.1 == r.1;
  }

  lemma SettleStep(w: Accounts, cb: Address, pool: int, jobs: seq<Job>, i: nat, handled: seq<Tx>)
    requires cb in w && i < |jobs|
    ensures var tx := jobs[i].tx;
      var (w', err) := Apply(w, tx, cb, pool);
      && cb in w'
      && Behind(handled, Settle(w, cb, pool, TxsOf(jobs[i..])))
           == Behind(if err == NonceErr then handled else handled + [tx],
                     Settle(w', cb, PoolAfter(tx, err, pool), TxsOf(jobs[i + 1..])))
  {
    hide Apply;
    var txs := TxsOf(jobs[i..]);
    assert txs[0] == jobs[i].tx && txs[1..] == TxsOf(jobs[i + 1..]);
    ApplyKeys(w, jobs[i].tx, cb, pool);
    var (w', err) := Apply(w, jobs[i].tx, cb, pool);
    var rest := Settle(w', cb, PoolAfter(jobs[i].tx, err, pool), txs[1..]);
    assert handled + [jobs[i].tx] + rest.1 == handled + ([jobs[i].tx] + rest.1);
  }

  method RunJob(e: M.Env, state: State, coinbase: Address, job: Job, ghost w: Accounts) returns (err: Err, left: int)
    requires state.Valid() && state.Calm() && coinbase in state.objects
    requires Settled(w, state.View()) && Simple(state.View(), job.tx, job.fails) && job.tx.IsMessage()
    modifies state, state.objects.Values
    ensures state.Valid() && state.Calm() && coinbase in state.objects
    ensures fresh(state.objects.Values - old(state.objects.Values))
    ensures Settled(w, state.View())
    ensures coinbase in old(state.View())
    ensures (state.View(), err) == Apply(old(state.View()), job.tx, coinbase, old(state.objects[coinbase].gasPool))
    ensures state.objects[coinbase].gasPool == PoolAfter(job.tx, err, old(state.objects[coinbase].gasPool))
    ensures left == GasLeft(job.tx, err, job.left) && (old(state.Tidy()) ==> state.Tidy())
  {
    hide Settled, Sum, NonNegative, Apply, Overlay, State.View, State.Values, StateObject.Value, StateObject.Sound, State.Calm, State.Tidy, State.Flushable, Cells, Meaning;
    ghost var now := state.View();
    var cb := state.objects[coinbase];
    var st := new StateTransition(cb, job.tx, state);
    err := st.TransitionState(e, job.ops, job.fails, job.left);
    left := st.gas;
    ApplySettled(now, job.tx, coinbase, old(cb.gasPool));
    SettledTrans(w, now, state.View());
  }

  method Flush(e: M.Env, state: State)
    requires state.Valid() && state.Calm()
    modifies state, state.objects.Values`committed
    ensures state.Valid() && state.Calm() && state.View() == old(state.View()) && state.objects == old(state.objects)
    ensures Overlay(state.trie, map[]) == state.View() && (old(state.Tidy()) ==> state.Tidy() && Holds(state.trie, state.View()))
    ensures forall a :: a in state.objects ==> state.objects[a].gasPool == old(state.objects[a].gasPool)
  {
    hide Overlay, State.View, StateObject.Sound, State.Calm, State.Tidy, State.Flushable, Cells, Meaning;
    state.CalmUnmarked();
    state.Update(e);
  }

  lemma SettledSimple(w: Accounts, w': Accounts, job: Job)
    requires Settled(w, w') && Simple(w, job.tx, job.fails)
    ensures Simple(w', job.tx, job.fails)
  {
  }

  // ----------------------------------------------------------------- rewards

  method CalculateBlockReward(uncles: nat) returns (r: int)
    ensures r == BLOCK_REWARD + uncles * UNCLE_INCLUSION_REWARD
  {
    r := 0;
    for i := 0 to uncles
      invariant r == i * UNCLE_INCLUSION_REWARD
    {
      r := r + UNCLE_INCLUSION_REWARD;
    }
    r := r + BLOCK_REWARD;
  }

  /** GetAccount, AddAmount and UpdateStateObject on one account. */
  method Reward(state: State, addr: Address, amount: nat)
    requires state.Valid()
    modifies state, state.objects.Values`balance
    ensures state.Valid() && fresh(state.objects.Values - old(state.objects.Values))
    ensures addr in Touch(old(state.View()), addr)
    ensures state.View() == Credit(Touch(old(state.View()), addr), addr, amount)
  {
    hide Overlay, State.View, State.Values, StateObject.Sound, State.Calm, State.Tidy, State.Flushable, Cells, Meaning;
    var account := state.GetOrNew(addr);
    AddTo(state, account, amount);
    state.UpdateObject(account);
  }

  method AddTo(state: State, o: StateObject, amount: int)
    requires state.Valid() && o.address in state.objects && state.objects[o.address] == o
    modifies o`balance
    ensures o.address in old(state.View()) && state.View() == Credit(old(state.View()), o.address, amount)
  {
    hide Overlay, StateObject.Sound, State.Calm, State.Tidy, State.Flushable, Cells, Meaning;
    o.AddAmount(amount);
    state.ObjectChanged(o.address);
  }

  /** The coinbase gets the block and inclusion rewards, and each uncle's coinbase its own. */
  method AccumelateRewards(state: State, coinbase: Address, uncles: seq<Address>)
    requires state.Valid()
    modifies state, state.objects.Values`balance
    ensures state.Valid() && fresh(state.objects.Values - old(state.objects.Values))
    ensures Sum(state.View()) == Sum(old(state.View())) + Rewards(|uncles|)
    ensures NonNegative(old(state.View())) ==> NonNegative(state.View())
    ensures forall a :: Read(state.View(), a) == Rewarded(Read(old(state.View()), a), a, coinbase, |uncles|, uncles)
  {
    hide Overlay, State.View, State.Values, Sum, Credit, Read, Touch, NonNegative, StateObject.Sound, State.Calm, State.Tidy, State.Flushable, Cells, Meaning;
    ghost var w := state.View();
    var amount := CalculateBlockReward(|uncles|);
    RewardEffect(w, coinbase, amount);
    Reward(state, coinbase, amount);
    for i := 0 to |uncles|
      invariant state.Valid() && fresh(state.objects.Values - old(state.objects.Values))
      invariant Sum(state.View()) == Sum(w) + amount + i * UNCLE_REWARD
      invariant NonNegative(w) ==> NonNegative(state.View())
      invariant forall a :: Read(state.View(), a) == Rewarded(Read(w, a), a, coinbase, |uncles|, uncles[..i])
    {
      RewardEffect(state.View(), uncles[i], UNCLE_REWARD);
      Reward(state, uncles[i], UNCLE_REWARD);
      assert uncles[..i + 1] == uncles[..i] + [uncles[i]];
    }
    assert uncles[..|uncles|] == uncles;
  }

  function Rewards(uncles: nat): nat {
    BLOCK_REWARD + uncles * (UNCLE_INCLUSION_REWARD + UNCLE_REWARD)
  }

  ghost function Rewarded(v: Acct, a: Address, coinbase: Address, n: nat, uncles: seq<Address>): Acct {
    Plus(v, (if a == coinbase then BLOCK_REWARD + n * UNCLE_INCLUSION_REWARD else 0) + multiset(uncles)[a] * UNCLE_REWARD)
  }

  /** The rewards in wei: 1.5 ether and 0.1875 for each uncle to the coinbase, 1.125 to each uncle's. */
  lemma RewardNumbers(v: Acct, a: Address, coinbase: Address, n: nat, uncles: seq<Address>)
    ensures Rewards(n) == 1_500_000_000_000_000_000 + n * 1_312_500_000_000_000_000
    ensures Rewarded(v, a, coinbase, n, uncles).balance == v.balance
      + (if a == coinbase then 1_500_000_000_000_000_000 + n * 187_500_000_000_000_000 else 0)
      + multiset(uncles)[a] * 1_125_000_000_000_000_000
  {
  }

  lemma RewardEffect(w: Accounts, a: Address, x: nat)
    ensures var w' := Credit(Touch(w, a), a, x);
      && Sum(w') == Sum(w) + x && (NonNegative(w) ==> NonNegative(w'))
      && forall b :: Read(w', b) == Plus(Read(w, b), if a == b then x else 0)
  {
    hide Sum;
    SumTouch(w, a);
    SumCredit(Touch(w, a), a, x);
  }

  // ------------------------------------------------------------------- block

  /**
   * ApplyDiff followed by the rewards: ether grows by exactly the rewards, or not at all when a receipt differs.
   * What the transactions do is what Settle says, from the block's gas limit.
   */
  method ProcessBlock(e: M.Env, state: State, coinbase: Address, gasLimit: nat, jobs: seq<Job>, expected: seq<Receipt>,
                      root: map<Address, Record> -> Bytes, uncles: seq<Address>)
    returns (ok: bool, ghost tries: Tries)
    requires state.Valid() && state.Calm() && AllSimple(state.View(), jobs)
    modifies state, state.objects.Values
    ensures Sum(state.View()) == Sum(old(state.View())) + (if ok then Rewards(|uncles|) else 0)
    ensures NonNegative(old(state.View())) ==> NonNegative(state.View())
    ensures forall a :: Read(state.View(), a).code == Read(old(state.View()), a).code
    ensures ok ==>
      var w := Settle(Touch(old(state.View()), coinbase), coinbase, gasLimit, TxsOf(jobs)).0;
      forall a :: Read(state.View(), a) == Rewarded(Read(w, a), a, coinbase, |uncles|, uncles)
    ensures var w := Touch(old(state.View()), coinbase);
      && Flushes(w, coinbase, gasLimit, jobs, tries, old(state.Tidy()))
      && (ok ==> |tries| == |jobs| && RootsMatch(w, coinbase, gasLimit, jobs, tries, expected, root))
      && (!ok ==> !RootsMatch(w, coinbase, gasLimit, jobs, tries, expected, root))
      && (old(state.Tidy()) ==> (ok <==> ReceiptsRight(w, coinbase, gasLimit, jobs, expected, root)))
  {
    hide Flushes, RootsMatch, ReceiptsRight, Receipted, State.Tidy, Holds;
    hide Sum, NonNegative, Overlay, State.View, State.Values, Apply, Settle, Touch, StateObject.Sound, State.Calm, State.Tidy, State.Flushable, Cells, Meaning;
    ghost var w := state.View();
    TouchSettled(w, coinbase);
    var cb := state.GetOrNew(coinbase);
    SetGasPool(state, cb, gasLimit);
    var receipts, handled;
    ghost var at;
    ghost var tidy := state.Tidy();
    ok, receipts, handled, tries, at := ProcessTransactions(e, state, coinbase, jobs, expected, root);
    FlushesWeaker(Touch(w, coinbase), coinbase, gasLimit, jobs, tries, tidy, old(state.Tidy()));
    SettledTrans(w, Touch(w, coinbase), state.View());
    if ok { AccumelateRewards(state, coinbase, uncles); }
  }

  method SetGasPool(state: State, o: StateObject, limit: nat)
    requires state.Valid() && o.address in state.objects && state.objects[o.address] == o
    modifies o`gasPool
    ensures o.gasPool == limit && state.View() == old(state.View()) && (old(state.Calm()) ==> state.Calm()) && (old(state.Tidy()) ==> state.Tidy())
  {
    hide Overlay, StateObject.Sound, State.Calm, State.Tidy, State.Flushable, Cells, Meaning;
    o.gasPool := limit;
    state.ObjectChanged(o.address);
    state.StillCalm();
  }

  lemma TouchSettled(w: Accounts, a: Address)
    ensures Settled(w, Touch(w, a))
  {
    hide Sum;
    SumTouch(w, a);
  }
}
