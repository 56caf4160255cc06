/** The transition of ethchain/state_transition.go as it runs on shared account objects. */
module Processing {
  import opened Bytes
  import opened World
  import opened Snapshot
  import opened Transition
  import M = Merkle

  class StateTransition {
    const state: State
    const tx: Tx
    const cb: StateObject
    var gas: int
    var sen: StateObject?
    var rec: StateObject?

    constructor (cb: StateObject, tx: Tx, state: State)
      ensures this.cb == cb && this.tx == tx && this.state == state && gas == 0 && sen == null && rec == null
    {
      this.cb, this.tx, this.state, gas, sen, rec := cb, tx, state, 0, null, null;
    }

    /** The objects the transition holds are the ones the state reads through. */
    ghost predicate Linked()
      reads this, state
    {
      && state.Valid()
      && cb.address in state.objects && state.objects[cb.address] == cb
      && (sen != null ==> tx.sender in state.objects && state.objects[tx.sender] == sen)
      && (rec != null ==> tx.recipient() in state.objects && state.objects[tx.recipient()] == rec)
    }

    method Sender() returns (o: StateObject)
      requires Linked()
      modifies this`sen, state`objects
      ensures Linked() && o == sen && rec == old(rec)
      ensures state.View() == Touch(old(state.View()), tx.sender)
      ensures fresh(state.objects.Values - old(state.objects.Values))
      ensures old(sen) != null ==> unchanged(this) && unchanged(state)
      ensures old(state.Calm()) ==> state.Calm()
      ensures old(state.Tidy()) ==> state.Tidy()
    {
      hide Overlay, StateObject.Value, State.Values, StateObject.Sound, State.Calm, State.Tidy, State.Flushable, Cells, Meaning;
      if sen != null {
        state.ViewCached(tx.sender);
        return sen;
      }
      o := state.GetOrNew(tx.sender);
      sen := o;
    }

    method Receiver() returns (o: StateObject)
      requires Linked()
      modifies this`rec, state`objects
      ensures Linked() && o == rec && sen == old(sen)
      ensures old(state.Calm()) ==> state.Calm()
      ensures old(state.Tidy()) ==> state.Tidy()
      ensures state.View() == Touch(old(state.View()), tx.recipient())
      ensures fresh(state.objects.Values - old(state.objects.Values))
    {
      hide Overlay, StateObject.Value, State.Values, StateObject.Sound, State.Calm, State.Tidy, State.Flushable, Cells, Meaning;
      if rec != null {
        state.ViewCached(tx.recipient());
        return rec;
      }
      o := state.GetOrNew(tx.recipient());
      rec := o;
    }

    method UseGas(amount: int) returns (ok: bool)
      modifies this`gas
      ensures ok <==> old(gas) >= amount
      ensures gas == if ok then old(gas) - amount else old(gas)
    {
      if gas < amount { return false; }
      gas := gas - amount;
      return true;
    }

    /** AddAmount or SubAmount on an object the state reads through. */
    method Adjust(o: StateObject, amount: int)
      requires state.Valid() && o.address in state.objects && state.objects[o.address] == o
      modifies o`balance
      ensures state.Valid() && o.address in old(state.View())
      ensures state.View() == Credit(old(state.View()), o.address, amount)
      ensures old(state.Calm()) ==> state.Calm()
      ensures old(state.Tidy()) ==> state.Tidy()
    {
      hide Overlay, StateObject.Sound, State.Calm, State.Tidy, State.Flushable, Cells, Meaning;
      o.AddAmount(amount);
      state.ObjectChanged(o.address);
      state.StillCalm();
    }

    method BuyGas() returns (err: Err)
      requires Linked() && sen != null && gas == 0
      modifies this`gas, cb`balance, sen`balance
      ensures Linked() && err in {None, PrepayErr, GasLimitErr} && (old(state.Calm()) ==> state.Calm()) && (old(state.Tidy()) ==> state.Tidy())
      ensures tx.sender in old(state.View()) && cb.address in old(state.View())
      ensures err == PrepayErr <==> old(state.View())[tx.sender].balance < tx.gas * tx.price
      ensures err == GasLimitErr <==> err != PrepayErr && old(cb.gasPool) < tx.gas
      ensures err != None ==> state.View() == old(state.View()) && gas == 0
      ensures err == None ==> gas == tx.gas
      ensures err == None ==>
        state.View() == Credit(Credit(old(state.View()), cb.address, tx.gas * tx.price), tx.sender, -(tx.gas * tx.price))
    {
      hide Overlay, State.View, StateObject.Sound, State.Calm, State.Tidy, State.Flushable, Cells, Meaning;
      state.ViewCached(tx.sender);
      state.ViewCached(cb.address);
      if sen.balance < tx.gas * tx.price { return PrepayErr; }
      var ok := CoinbaseSells();
      if !ok { return GasLimitErr; }
      gas := gas + tx.gas;
      Adjust(sen, -(tx.gas * tx.price));
      return None;
    }

    method CoinbaseSells() returns (ok: bool)
      requires Linked()
      modifies cb`balance
      ensures Linked() && cb.address in old(state.View()) && (old(state.Calm()) ==> state.Calm()) && (old(state.Tidy()) ==> state.Tidy())
      ensures ok <==> tx.gas <= cb.gasPool
      ensures state.View() == if ok then Credit(old(state.View()), cb.address, tx.gas * tx.price) else old(state.View())
    {
      hide Overlay, StateObject.Sound, State.Calm, State.Tidy, State.Flushable, Cells, Meaning;
      ok := cb.BuyGas(tx.gas, tx.price);
      state.ObjectChanged(cb.address);
      state.StillCalm();
    }

    /** The deferred refund, to the objects the transition holds. */
    method RefundGas()
      requires sen != null && sen.address == tx.sender
      modifies cb`balance, cb`gasPool, sen`balance
      ensures old(Linked()) ==> Linked() && tx.sender in old(state.View()) && cb.address in old(state.View())
      ensures old(Linked()) ==> state.View() == Refunded(old(state.View()), tx, cb.address, gas)
      ensures cb.gasPool == old(cb.gasPool) + gas && (old(state.Calm()) ==> state.Calm()) && (old(state.Tidy()) ==> state.Tidy())
    {
      hide Overlay, State.View, StateObject.Sound, State.Calm, State.Tidy, State.Flushable, Cells, Meaning;
      if Linked() {
        state.ViewCached(tx.sender);
        state.ViewCached(cb.address);
      }
      CoinbaseRefunds();
      SenderRefunded();
    }

    method CoinbaseRefunds()
      modifies cb`balance, cb`gasPool
      ensures old(Linked()) ==> Linked() && cb.address in old(state.View())
      ensures old(Linked()) ==> state.View() == Credit(old(state.View()), cb.address, -(gas * tx.price))
      ensures cb.gasPool == old(cb.gasPool) + gas && (old(state.Calm()) ==> state.Calm()) && (old(state.Tidy()) ==> state.Tidy())
    {
      hide Overlay, StateObject.Sound, State.Calm, State.Tidy, State.Flushable, Cells, Meaning;
      cb.RefundGas(gas, tx.price);
      state.StillCalm();
      if old(Linked()) { state.ObjectChanged(cb.address); }
    }

    method SenderRefunded()
      requires sen != null && sen.address == tx.sender
      modifies sen`balance
      ensures old(Linked()) ==> Linked() && tx.sender in old(state.View())
      ensures old(Linked()) ==> state.View() == Credit(old(state.View()), tx.sender, gas * tx.price)
      ensures old(state.Calm()) ==> state.Calm()
      ensures old(state.Tidy()) ==> state.Tidy()
    {
      hide Overlay, StateObject.Sound, State.Calm, State.Tidy, State.Flushable, Cells, Meaning;
      sen.AddAmount(gas * tx.price);
      state.StillCalm();
      if old(Linked()) { state.ObjectChanged(sen.address); }
    }
  
    method PreCheck() returns (err: Err)
      requires Linked() && gas == 0 && sen == null && rec == null
      modifies this`gas, this`sen, state`objects, state.objects.Values`balance
      ensures Linked() && sen != null && rec == null && fresh(state.objects.Values - old(state.objects.Values))
      ensures cb.address in old(state.View()) && err in {None, NonceErr, PrepayErr, GasLimitErr} && cb.gasPool == old(cb.gasPool)
      ensures old(state.Calm()) ==> state.Calm()
      ensures old(state.Tidy()) ==> state.Tidy()
      ensures err != None ==> (state.View(), err) == Apply(old(state.View()), tx, cb.address, old(cb.gasPool)) && gas == 0
      ensures err == None ==>
        var w := Touch(old(state.View()), tx.sender);
        && gas == tx.gas && w[tx.sender].nonce == tx.nonce
        && w[tx.sender].balance >= tx.gas * tx.price && old(cb.gasPool) >= tx.gas
        && state.View() == Credit(Credit(w, cb.address, tx.gas * tx.price), tx.sender, -(tx.gas * tx.price))
    {
      hide Overlay, State.View, Executed, StateObject.Sound, State.Calm, State.Tidy, State.Flushable, Cells, Meaning;
      state.ViewCached(cb.address);
      var sender := Sender();
      state.ViewCached(tx.sender);
      if sender.nonce != tx.nonce { return NonceErr; }
      err := BuyGas();
    }

    method CountUp()
      requires Linked() && sen != null
      modifies sen`nonce
      ensures Linked() && tx.sender in old(state.View()) && state.View() == Bumped(old(state.View()), tx.sender)
      ensures old(state.Calm()) ==> state.Calm()
      ensures old(state.Tidy()) ==> state.Tidy()
    {
      hide Overlay, StateObject.Sound, State.Calm, State.Tidy, State.Flushable, Cells, Meaning;
      sen.nonce := (sen.nonce + 1) % TWO64;
      state.ObjectChanged(sen.address);
      state.StillCalm();
    }
  
    /** The value moves from one object to the other, which may be the same. */
    method Transfer()
      requires Linked() && sen != null
      modifies this`rec, state`objects, state.objects.Values`balance
      ensures Linked() && sen == old(sen) && rec != null && fresh(state.objects.Values - old(state.objects.Values))
      ensures old(state.Calm()) ==> state.Calm()
      ensures old(state.Tidy()) ==> state.Tidy()
      ensures tx.sender in old(state.View()) && state.View() == Transferred(old(state.View()), tx)
    {
      hide Overlay, State.View, StateObject.Sound, State.Calm, State.Tidy, State.Flushable, Cells, Meaning;
      state.ViewCached(tx.sender);
      var receiver := Receiver();
      Adjust(sen, 0 - tx.value);
      Adjust(receiver, tx.value);
    }

    method Call(e: M.Env, ops: seq<Op>, fails: bool, left: int) returns (err: Err)
      requires Linked() && sen != null && rec != null
      modifies this`gas, state, state.objects.Values
      ensures state.Valid() && fresh(state.objects.Values - old(state.objects.Values))
      ensures Read(old(state.View()), tx.recipient()).code == [] ==>
        && err == None && Linked() && gas == old(gas) && state.View() == old(state.View())
        && (old(state.Calm()) ==> state.Calm()) && (old(state.Tidy()) ==> state.Tidy()) && cb.gasPool == old(cb.gasPool)
      ensures Read(old(state.View()), tx.recipient()).code != [] && fails ==>
        && err == CallErr && gas == left && state.View() == old(state.View())
        && cb.address in state.objects && fresh(state.objects.Values) && (old(state.Calm()) ==> state.Calm()) && (old(state.Tidy()) ==> state.Tidy())
        && state.objects[cb.address].gasPool == old(cb.gasPool)
    {
      hide Overlay, State.View, State.Values, StateObject.Sound, State.Calm, State.Tidy, State.Flushable, Cells, Meaning;
      state.ViewCached(tx.recipient());
      if |rec.code| > 0 {
        var held := RunFrame(e, state, ops, fails, {cb, sen, rec});
        gas := left;
        if fails { return CallErr; }
      }
      return None;
    }

    /**
     * From the nonce to the end of the call. `ops` is what the recipient's code does to the live state, `left`
     * the gas it leaves, and `fails` whether it ends in error.
     */
    method Execute(e: M.Env, ops: seq<Op>, fails: bool, left: int) returns (err: Err)
      requires Linked() && sen != null && rec == null && gas == tx.gas
      modifies this, state, state.objects.Values
      ensures state.Valid() && sen == old(sen) && fresh(state.objects.Values - old(state.objects.Values))
      ensures tx.sender in old(state.View())
      ensures Simple(old(state.View()), tx, fails) ==>
        var (w, x, g) := Executed(Bumped(old(state.View()), tx.sender), tx);
        && state.View() == w && err == x
        && cb.address in state.objects && state.objects[cb.address].gasPool == old(cb.gasPool)
        && (x != CallErr ==> Linked() && gas == g)
        && (x == CallErr ==> fresh(state.objects.Values) && gas == left)
        && (old(state.Calm()) ==> state.Calm()) && (old(state.Tidy()) ==> state.Tidy())
    {
      hide Overlay, State.View, State.Values, Transferred, Bumped, Touch, StateObject.Sound, State.Calm, State.Tidy, State.Flushable, Cells, Meaning;
      state.ViewCached(tx.sender);
      ReadBumped(state.View(), tx.sender, tx.recipient());
      CountUp();
      state.ViewCached(tx.sender);
      var ok := UseGas(GAS_TX);
      if !ok { return OutOfGas; }
      ok := UseGas(|tx.data| * GAS_DATA);
      if !ok { return OutOfGas; }
      if sen.balance < tx.value { return ValueErr; }
      err := TransferAndCall(e, ops, fails, left);
    }

    /** Once everything is covered: the value moves, and the recipient's code runs if there is any. */
    method TransferAndCall(e: M.Env, ops: seq<Op>, fails: bool, left: int) returns (err: Err)
      requires Linked() && sen != null
      modifies this, state, state.objects.Values
      ensures state.Valid() && sen == old(sen) && fresh(state.objects.Values - old(state.objects.Values))
      ensures tx.sender in old(state.View())
      ensures Simple(old(state.View()), tx, fails) ==>
        && state.View() == Transferred(old(state.View()), tx)
        && err == (if Read(old(state.View()), tx.recipient()).code == [] then None else CallErr)
        && cb.address in state.objects && state.objects[cb.address].gasPool == old(cb.gasPool)
        && (err == None ==> Linked() && gas == old(gas))
        && (err == CallErr ==> fresh(state.objects.Values) && gas == left)
        && (old(state.Calm()) ==> state.Calm()) && (old(state.Tidy()) ==> state.Tidy())
    {
      hide Overlay, State.View, State.Values, Transferred, Bumped, Touch, StateObject.Sound, State.Calm, State.Tidy, State.Flushable, Cells, Meaning;
      state.ViewCached(tx.sender);
      ghost var w := state.View();
      Transfer();
      ReadTransferred(w, tx, tx.recipient());
      err := Call(e, ops, fails, left);
    }

    method TransitionState(e: M.Env, ops: seq<Op>, fails: bool, left: int) returns (err: Err)
      requires tx.IsMessage()
      requires Linked() && gas == 0 && sen == null && rec == null
      modifies this, state, state.objects.Values
      ensures state.Valid() && fresh(state.objects.Values - old(state.objects.Values))
      ensures cb.address in old(state.View())
      ensures Simple(old(state.View()), tx, fails) ==>
        && (state.View(), err) == Apply(old(state.View()), tx, cb.address, old(cb.gasPool)) && gas == GasLeft(tx, err, left)
        && cb.address in state.objects && state.objects[cb.address].gasPool == PoolAfter(tx, err, old(cb.gasPool))
        && (old(state.Calm()) ==> state.Calm()) && (old(state.Tidy()) ==> state.Tidy())
    {
      hide Overlay, State.View, StateObject.Value, Executed, Apply, Bumped, Credit, Refunded, Touch, StateObject.Sound, State.Calm, State.Tidy, State.Flushable, Cells, Meaning;
      ghost var w := state.View();
      err := PreCheck();
      if err != None { return; }
      ApplyPaid(w, tx, cb.address, old(cb.gasPool));
      err := Execute(e, ops, fails, left);
      SimpleBought(w, cb.address, fails);
      if Simple(w, tx, fails) && err == CallErr {
        assert state.objects[cb.address] in state.objects.Values;
        assert state.objects[cb.address] != cb && state.objects[cb.address] != sen;
      }
      RefundGas();
    }

    /** Buying gas does not change anybody's code. */
    lemma SimpleBought(w: Accounts, cb: Address, fails: bool)
      requires cb in w
      ensures var w1, g := Touch(w, tx.sender), tx.gas * tx.price;
        Simple(w, tx, fails) <==> Simple(Credit(Credit(w1, cb, g), tx.sender, -g), tx, fails)
    {
    }
  }
}
