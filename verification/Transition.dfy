/** What a message transaction does to the accounts: the specification of ethchain/state_transition.go, and its laws. */
module Transition {
  import opened Bytes
  import opened World
  import opened Snapshot

  const GAS_TX := 500
  const GAS_DATA := 5

  /** The recipient that asks for a contract to be created. */
  const CONTRACT_ADDR: Bytes := [0, 0, 0, 0, 0, 0, 0, 0, 0, 0, 0, 0, 0, 0, 0, 0, 0, 0, 0, 0]

  /** ethutil.Address: the last twenty bytes, with zeros in front of fewer. */
  function AddressOf(b: Bytes): (a: Address)
    ensures |a| == 20
  {
    if |b| > 20 then b[|b| - 20..] else LeftPad(b, 20)
  }

  /** Counted from the end, an address has the bytes it was made from, and zeros where there are none. */
  lemma AddressLayout(b: Bytes)
    ensures forall i :: 0 <= i < 20 ==> AddressOf(b)[i] == if |b| + i >= 20 then b[|b| + i - 20] else 0
  {
  }

  /** A transaction with its sender already recovered. Its numbers were read from bytes. */
  datatype Tx = Tx(sender: Address, to: Bytes, nonce: nat, gas: nat, price: nat, value: nat, data: Bytes) {

    function recipient(): Address {
      AddressOf(to)
    }

    /** Anything but a contract creation. */
    predicate IsMessage() {
      to != CONTRACT_ADDR
    }
  }

  datatype Err = None | NonceErr | PrepayErr | GasLimitErr | OutOfGas | ValueErr | CallErr

  // ------------------------------------------------------- sums of balances

  ghost function Sum(w: Accounts): int {
    if w == map[] then 0 else var a :| a in w; w[a].balance + Sum(w - {a})
  }

  lemma {:induction false} SumRemove(w: Accounts, a: Address)
    requires a in w
    ensures Sum(w) == w[a].balance + Sum(w - {a})
  {
    var b :| b in w && Sum(w) == w[b].balance + Sum(w - {b});
    if a != b {
      SumRemove(w - {b}, a);
      SumRemove(w - {a}, b);
      assert w - {a} - {b} == w - {b} - {a};
    }
  }

  lemma SumPut(w: Accounts, a: Address, v: Acct)
    ensures Sum(w[a := v]) == Sum(w) - Read(w, a).balance + v.balance
  {
    SumRemove(w[a := v], a);
    if a in w {
      SumRemove(w, a);
      assert w[a := v] - {a} == w - {a};
    } else {
      assert w[a := v] - {a} == w;
    }
  }

  ghost function Credit(w: Accounts, a: Address, x: int): Accounts
    requires a in w
  {
    w[a := w[a].(balance := w[a].balance + x)]
  }

  ghost predicate NonNegative(w: Accounts) {
    forall a :: a in w ==> w[a].balance >= 0
  }

  // ----------------------------------------------------- what a transaction does

  ghost function Bumped(w: Accounts, a: Address): Accounts
    requires a in w
  {
    w[a := w[a].(nonce := (w[a].nonce + 1) % TWO64)]
  }

  ghost function Refunded(w: Accounts, tx: Tx, cb: Address, gas: int): Accounts
    requires tx.sender in w && cb in w
  {
    Credit(Credit(w, cb, -(gas * tx.price)), tx.sender, gas * tx.price)
  }

  /** The gas is paid for in advance and the nonce counted up. */
  ghost function Bought(w: Accounts, tx: Tx, cb: Address): Accounts
    requires tx.sender in w && cb in w
  {
    Bumped(Credit(Credit(w, cb, tx.gas * tx.price), tx.sender, -(tx.gas * tx.price)), tx.sender)
  }

  ghost function Transferred(w: Accounts, tx: Tx): Accounts
    requires tx.sender in w
  {
    Credit(Credit(Touch(w, tx.recipient()), tx.sender, 0 - tx.value), tx.recipient(), tx.value)
  }

  /** The call either has nothing to run or ends in error. */
  ghost predicate Simple(w: Accounts, tx: Tx, fails: bool) {
    fails || Read(w, tx.recipient()).code == []
  }

  /** What follows once the gas is bought: the accounts, how it ended, and the gas left. */
  ghost function Executed(w: Accounts, tx: Tx): (Accounts, Err, int)
    requires tx.sender in w
  {
    if tx.gas < GAS_TX then (w, OutOfGas, tx.gas)
    else if tx.gas - GAS_TX < |tx.data| * GAS_DATA then (w, OutOfGas, tx.gas - GAS_TX)
    else
      var gas := tx.gas - GAS_TX - |tx.data| * GAS_DATA;
      if w[tx.sender].balance < tx.value then (w, ValueErr, gas)
      else
        (Transferred(w, tx), if Read(w, tx.recipient()).code == [] then None else CallErr, gas)
  }

  /**
   * TransitionState, for a recipient without code or a call that ends in error. After such a call the state
   * no longer uses the objects that the deferred refund goes to, so the refund is lost.
   */
  ghost function Apply(w: Accounts, tx: Tx, cb: Address, pool: int): (Accounts, Err)
    requires cb in w
  {
    var w1 := Touch(w, tx.sender);
    if w1[tx.sender].nonce != tx.nonce then (w1, NonceErr)
    else if w1[tx.sender].balance < tx.gas * tx.price then (w1, PrepayErr)
    else if pool < tx.gas then (w1, GasLimitErr)
    else
      var (w3, err, gas) := Executed(Bought(w1, tx, cb), tx);
      if err == CallErr then (w3, err) else (Refunded(w3, tx, cb, gas), err)
  }

  /** Once the checks are passed: buy, execute, and refund unless the call failed. */
  lemma ApplyPaid(w: Accounts, tx: Tx, cb: Address, pool: int)
    requires cb in w && Touch(w, tx.sender)[tx.sender].nonce == tx.nonce
    requires Touch(w, tx.sender)[tx.sender].balance >= tx.gas * tx.price && pool >= tx.gas
    ensures var w1, g := Touch(w, tx.sender), tx.gas * tx.price;
      && cb in w1
      && cb in Credit(Credit(w1, cb, g), tx.sender, -g)
      && tx.sender in Credit(w1, cb, g)
      && tx.sender in Credit(Credit(w1, cb, g), tx.sender, -g)
      && tx.sender in Bumped(Credit(Credit(w1, cb, g), tx.sender, -g), tx.sender)
      && var (w3, err, gas) := Executed(Bumped(Credit(Credit(w1, cb, g), tx.sender, -g), tx.sender), tx);
      && cb in w3 && tx.sender in w3
      && !Rejected(err) && (err != CallErr ==> gas == tx.gas - Used(tx, err))
      && Apply(w, tx, cb, pool) == if err == CallErr then (w3, err) else (Refunded(w3, tx, cb, gas), err)
  {
  }

  // -------------------------------------------------------- the net effect

  /** The gas a transaction pays for: a failed call pays for all it bought. */
  function Used(tx: Tx, err: Err): int {
    match err
    case NonceErr => 0
    case PrepayErr => 0
    case GasLimitErr => 0
    case OutOfGas => if tx.gas < GAS_TX then 0 else GAS_TX
    case CallErr => tx.gas
    case _ => GAS_TX + |tx.data| * GAS_DATA
  }

  function Moved(tx: Tx, err: Err): nat {
    if err == None || err == CallErr then tx.value else 0
  }

  predicate Rejected(err: Err) {
    err in {NonceErr, PrepayErr, GasLimitErr}
  }

  /** The coinbase's pool gets gas back with the refund, and is never charged. */
  function PoolAfter(tx: Tx, err: Err, pool: int): int {
    if Rejected(err) || err == CallErr then pool else pool + tx.gas - Used(tx, err)
  }

  /** The gas the transition is left with: none if it was refused, and what the code left after a failed call. */
  function GasLeft(tx: Tx, err: Err, left: int): int {
    if Rejected(err) then 0 else if err == CallErr then left else tx.gas - Used(tx, err)
  }

  lemma ReadCredit(w: Accounts, b: Address, x: int, a: Address)
    requires b in w
    ensures Read(Credit(w, b, x), a) == Plus(Read(w, a), if a == b then x else 0)
  {
  }

  ghost function Plus(v: Acct, x: int): Acct {
    v.(balance := v.balance + x)
  }

  lemma ReadRefunded(w: Accounts, tx: Tx, cb: Address, gas: int, a: Address)
    requires tx.sender in w && cb in w
    ensures var r := gas * tx.price;
      Read(Refunded(w, tx, cb, gas), a) == Plus(Read(w, a), (if a == tx.sender then r else 0) - (if a == cb then r else 0))
  {
    hide Credit, Read;
    var r := gas * tx.price;
    CreditKeys(w, cb, -r);
    ReadCredit(w, cb, -r, a);
    ReadCredit(Credit(w, cb, -r), tx.sender, r, a);
  }

  lemma CreditKeys(w: Accounts, b: Address, x: int)
    requires b in w
    ensures Credit(w, b, x).Keys == w.Keys
  {
  }

  lemma ReadBumped(w: Accounts, b: Address, a: Address)
    requires b in w
    ensures Read(Bumped(w, b), a) == if a == b then Read(w, a).(nonce := (Read(w, a).nonce + 1) % TWO64) else Read(w, a)
  {
  }

  lemma ReadBought(w: Accounts, tx: Tx, cb: Address, a: Address)
    requires tx.sender in w && cb in w
    ensures var g := tx.gas * tx.price; var v := Read(w, a); var v' := Read(Bought(w, tx, cb), a);
      && v'.balance == v.balance + (if a == cb then g else 0) - (if a == tx.sender then g else 0)
      && v'.nonce == (if a == tx.sender then (v.nonce + 1) % TWO64 else v.nonce)
      && v'.code == v.code && v'.storage == v.storage
    ensures Bought(w, tx, cb).Keys == w.Keys
  {
    hide Credit, Read;
    var g := tx.gas * tx.price;
    var w1 := Credit(w, cb, g);
    CreditKeys(w, cb, g);
    ReadCredit(w, cb, g, a);
    CreditKeys(w1, tx.sender, -g);
    ReadCredit(w1, tx.sender, -g, a);
    ReadBumped(Credit(w1, tx.sender, -g), tx.sender, a);
  }

  lemma ReadTransferred(w: Accounts, tx: Tx, a: Address)
    requires tx.sender in w
    ensures Read(Transferred(w, tx), a)
         == Plus(Read(w, a), (if a == tx.recipient() then tx.value else 0) - (if a == tx.sender then tx.value else 0))
    ensures Transferred(w, tx).Keys == w.Keys + {tx.recipient()}
  {
    hide Credit, Read;
    var w1 := Touch(w, tx.recipient());
    var w2 := Credit(w1, tx.sender, 0 - tx.value);
    CreditKeys(w1, tx.sender, 0 - tx.value);
    ReadCredit(w1, tx.sender, 0 - tx.value, a);
    CreditKeys(w2, tx.recipient(), tx.value);
    ReadCredit(w2, tx.recipient(), tx.value, a);
  }

  /**
   * The net effect in one line for every account, however sender, recipient and coinbase coincide: the sender
   * pays for the gas used and for the value, the recipient gets the value, the coinbase gets the fee.
   */
  lemma NetEffect(w: Accounts, tx: Tx, cb: Address, pool: int, a: Address)
    requires cb in w
    ensures var (w', err) := Apply(w, tx, cb, pool);
      var fee, moved := Used(tx, err) * tx.price, Moved(tx, err);
      && Read(w', a).balance == Read(w, a).balance
           - (if a == tx.sender then fee + moved else 0)
           + (if a == tx.recipient() then moved else 0)
           + (if a == cb then fee else 0)
      && Read(w', a).nonce == (if a == tx.sender && !Rejected(err) then (tx.nonce + 1) % TWO64 else Read(w, a).nonce)
      && Read(w', a).code == Read(w, a).code && Read(w', a).storage == Read(w, a).storage
  {
    hide Bought, Executed, Refunded, AddressOf, Read, Used, Moved;
    var w1 := Touch(w, tx.sender);
    ReadBought(w1, tx, cb, a);
    TouchRead(w, tx.sender);
    UsedNothing(tx);
    var w2 := Bought(w1, tx, cb);
    var (w3, err, gas) := Executed(w2, tx);
    ReadExecuted(w2, tx, a);
    ExecutedKeys(w2, tx);
    if err != CallErr {
      ReadRefunded(w3, tx, cb, gas, a);
      Distribute(tx.gas, Used(tx, err), tx.price);
    }
  }

  lemma TouchRead(w: Accounts, a: Address)
    ensures Read(w, a) == Touch(w, a)[a]
  {
  }

  lemma UsedNothing(tx: Tx)
    ensures forall err :: Rejected(err) ==> Used(tx, err) == 0 && Moved(tx, err) == 0
    ensures Used(tx, CallErr) == tx.gas
  {
  }

  lemma ExecutedKeys(w: Accounts, tx: Tx)
    requires tx.sender in w
    ensures w.Keys <= Executed(w, tx).0.Keys
  {
    hide Transferred, AddressOf;
    ReadTransferred(w, tx, tx.sender);
  }

  /** Between the purchase of gas and the refund only the value moves. */
  lemma ReadExecuted(w: Accounts, tx: Tx, a: Address)
    requires tx.sender in w
    ensures var (w', err, gas) := Executed(w, tx); var moved := Moved(tx, err);
      && !Rejected(err) && (err != CallErr ==> gas == tx.gas - Used(tx, err) && 0 <= Used(tx, err) <= tx.gas)
      && Read(w', a) == Plus(Read(w, a), (if a == tx.recipient() then moved else 0) - (if a == tx.sender then moved else 0))
  {
    hide Transferred, AddressOf;
    ReadTransferred(w, tx, a);
  }

  lemma Distribute(gas: nat, used: nat, price: nat)
    ensures (gas - used) * price == gas * price - used * price
  {
  }

  // ------------------------------------------------------------- the outcome

  /** The nonce fits, the sender can prepay the gas, and the pool can supply it. */
  predicate Admitted(v: Acct, tx: Tx, pool: int) {
    v.nonce == tx.nonce && v.balance >= tx.gas * tx.price && pool >= tx.gas
  }

  /**
   * How a transaction ends, decided by the sender's account, the pool and the recipient's code. 500 gas are for the
   * transaction and 5 for each byte of data. The value must be covered once the gas is paid for, which costs nothing
   * when the sender is the coinbase.
   */
  lemma OutcomeExactly(w: Accounts, tx: Tx, cb: Address, pool: int)
    requires cb in w
    ensures var v, err := Read(w, tx.sender), Apply(w, tx, cb, pool).1;
      var left := v.balance - (if tx.sender == cb then 0 else tx.gas * tx.price);
      var admitted, enough := Admitted(v, tx, pool), tx.gas >= 500 + 5 * |tx.data|;
      && (err == NonceErr <==> v.nonce != tx.nonce)
      && (err == PrepayErr <==> v.nonce == tx.nonce && v.balance < tx.gas * tx.price)
      && (err == GasLimitErr <==> v.nonce == tx.nonce && v.balance >= tx.gas * tx.price && pool < tx.gas)
      && (err == OutOfGas <==> admitted && !enough)
      && (err == ValueErr <==> admitted && enough && left < tx.value)
      && (err == None <==> admitted && enough && left >= tx.value && Read(w, tx.recipient()).code == [])
      && (err == CallErr <==> admitted && enough && left >= tx.value && Read(w, tx.recipient()).code != [])
  {
    hide Bought, Transferred, Refunded, AddressOf;
    var w1 := Touch(w, tx.sender);
    TouchRead(w, tx.sender);
    assert Read(w1, tx.sender) == Read(w, tx.sender) && Read(w1, tx.recipient()) == Read(w, tx.recipient());
    ReadBought(w1, tx, cb, tx.sender);
    ReadBought(w1, tx, cb, tx.recipient());
  }

  /** What every account has afterwards, in numbers, for each way a transaction can end. */
  lemma BalanceExactly(w: Accounts, tx: Tx, cb: Address, pool: int, a: Address)
    requires cb in w
    ensures var (w', err) := Apply(w, tx, cb, pool);
      var used :=
        if err == None || err == ValueErr then 500 + 5 * |tx.data|
        else if err == OutOfGas then (if tx.gas < 500 then 0 else 500)
        else if err == CallErr then tx.gas
        else 0;
      var moved := if err == None || err == CallErr then tx.value else 0;
      && Read(w', a).balance == Read(w, a).balance
           - (if a == tx.sender then used * tx.price + moved else 0)
           + (if a == tx.recipient() then moved else 0)
           + (if a == cb then used * tx.price else 0)
      && Read(w', a).nonce ==
           (if a == tx.sender && err !in {NonceErr, PrepayErr, GasLimitErr} then (tx.nonce + 1) % TWO64 else Read(w, a).nonce)
      && PoolAfter(tx, err, pool) == pool + (if err in {NonceErr, PrepayErr, GasLimitErr, CallErr} then 0 else tx.gas - used)
  {
    hide Apply, AddressOf, Read;
    NetEffect(w, tx, cb, pool, a);
  }

  // ---------------------------------------------------------- conservation

  lemma SumCredit(w: Accounts, a: Address, x: int)
    requires a in w
    ensures Sum(Credit(w, a, x)) == Sum(w) + x
  {
    SumPut(w, a, w[a].(balance := w[a].balance + x));
  }

  lemma SumTouch(w: Accounts, a: Address)
    ensures Sum(Touch(w, a)) == Sum(w)
  {
    if a !in w { SumPut(w, a, NONE); }
  }

  lemma SumPair(w: Accounts, a: Address, b: Address, x: int)
    requires a in w && b in w
    ensures Sum(Credit(Credit(w, a, x), b, -x)) == Sum(w)
  {
    hide Sum;
    SumCredit(w, a, x);
    SumCredit(Credit(w, a, x), b, -x);
  }

  lemma SumBought(w: Accounts, tx: Tx, cb: Address)
    requires tx.sender in w && cb in w
    ensures Sum(Bought(w, tx, cb)) == Sum(w)
  {
    hide Sum;
    var g := tx.gas * tx.price;
    SumPair(w, cb, tx.sender, g);
    var w2 := Credit(Credit(w, cb, g), tx.sender, -g);
    SumPut(w2, tx.sender, w2[tx.sender].(nonce := (w2[tx.sender].nonce + 1) % TWO64));
  }

  lemma SumRefunded(w: Accounts, tx: Tx, cb: Address, gas: int)
    requires tx.sender in w && cb in w
    ensures Sum(Refunded(w, tx, cb, gas)) == Sum(w)
  {
    hide Sum;
    SumPair(w, cb, tx.sender, -(gas * tx.price));
  }

  lemma SumTransferred(w: Accounts, tx: Tx)
    requires tx.sender in w
    ensures Sum(Transferred(w, tx)) == Sum(w)
  {
    hide Sum, Touch;
    SumTouch(w, tx.recipient());
    assert tx.sender in Touch(w, tx.recipient()) by { TouchKeys(w, tx.recipient()); }
    SumPair(Touch(w, tx.recipient()), tx.sender, tx.recipient(), 0 - tx.value);
  }

  lemma TouchKeys(w: Accounts, a: Address)
    ensures Touch(w, a).Keys == w.Keys + {a}
  {
  }

  /** A transaction moves ether and makes none, whether it succeeds, is refused, or fails. */
  lemma ApplyConserves(w: Accounts, tx: Tx, cb: Address, pool: int)
    requires cb in w
    ensures Sum(Apply(w, tx, cb, pool).0) == Sum(w)
  {
    hide Sum, Bought, Transferred, Refunded;
    var w1 := Touch(w, tx.sender);
    SumTouch(w, tx.sender);
    ReadBought(w1, tx, cb, cb);
    SumBought(w1, tx, cb);
    var w2 := Bought(w1, tx, cb);
    var d := |tx.data| * GAS_DATA;
    SumRefunded(w2, tx, cb, tx.gas);
    SumRefunded(w2, tx, cb, tx.gas - GAS_TX);
    SumRefunded(w2, tx, cb, tx.gas - GAS_TX - d);
    SumTransferred(w2, tx);
    ReadTransferred(w2, tx, cb);
    SumRefunded(Transferred(w2, tx), tx, cb, tx.gas - GAS_TX - d);
  }

  /** No transaction can overdraw an account, even where sender, recipient and coinbase are the same. */
  lemma ApplyNonNegative(w: Accounts, tx: Tx, cb: Address, pool: int)
    requires cb in w && NonNegative(w)
    ensures NonNegative(Apply(w, tx, cb, pool).0)
  {
    var (w', err) := Apply(w, tx, cb, pool);
    forall a | a in w' ensures w'[a].balance >= 0 {
      NetEffect(w, tx, cb, pool, a);
      SenderCanPay(w, tx, cb, pool);
    }
  }

  /** What the sender gives is covered: fee and value together, or the value alone if the fee comes back to it. */
  lemma SenderCanPay(w: Accounts, tx: Tx, cb: Address, pool: int)
    requires cb in w && NonNegative(w)
    ensures var (w', err) := Apply(w, tx, cb, pool);
      var fee, moved := Used(tx, err) * tx.price, Moved(tx, err);
      && 0 <= fee && moved + (if tx.sender == cb then 0 else fee) <= Read(w, tx.sender).balance
  {
    hide Bought, Transferred, Refunded;
    var (w', err) := Apply(w, tx, cb, pool);
    var w1 := Touch(w, tx.sender);
    ReadBought(w1, tx, cb, tx.sender);
    Monotone(Used(tx, err), tx.gas, tx.price);
    assert Read(w1, tx.sender) == w1[tx.sender];
  }

  lemma Monotone(used: nat, gas: nat, price: nat)
    ensures used <= gas ==> used * price <= gas * price
    ensures 0 <= used * price
  {
  }

  // ------------------------------------------------------ a list of transactions

  lemma ApplyKeys(w: Accounts, tx: Tx, cb: Address, pool: int)
    requires cb in w
    ensures w.Keys <= Apply(w, tx, cb, pool).0.Keys
  {
    hide Bought, Transferred, Refunded;
    var w1 := Touch(w, tx.sender);
    ReadBought(w1, tx, cb, cb);
    var w2 := Bought(w1, tx, cb);
    ReadTransferred(w2, tx, cb);
    RefundedKeys(w2, tx, cb, Executed(w2, tx).2);
    RefundedKeys(Transferred(w2, tx), tx, cb, Executed(w2, tx).2);
  }

  lemma RefundedKeys(w: Accounts, tx: Tx, cb: Address, gas: int)
    requires tx.sender in w && cb in w
    ensures Refunded(w, tx, cb, gas).Keys == w.Keys
  {
    CreditKeys(w, cb, -(gas * tx.price));
  }

  /**
   * A list of transactions in order: the accounts afterwards, and the transactions handled. A wrong nonce is passed
   * over. Any other failure counts as handled, also that of a transaction the pool cannot supply: its error is of
   * ethstate's type, which ethchain's IsGasLimitErr does not recognise.
   */
  ghost function Settle(w: Accounts, cb: Address, pool: int, txs: seq<Tx>): (Accounts, seq<Tx>)
    requires cb in w
    decreases |txs|
  {
    if txs == [] then (w, [])
    else
      var tx := txs[0];
      var (w', err) := Apply(w, tx, cb, pool);
      assert cb in w' by { ApplyKeys(w, tx, cb, pool); }
      var (w2, handled) := Settle(w', cb, PoolAfter(tx, err, pool), txs[1..]);
      (w2, if err == NonceErr then handled else [tx] + handled)
  }

  /** Accounts and pool after some transactions from the front. */
  ghost function After(w: Accounts, cb: Address, pool: int, txs: seq<Tx>): (r: (Accounts, int))
    requires cb in w
    ensures cb in r.0
  {
    if txs == [] then (w, pool)
    else
      var (u, p) := After(w, cb, pool, txs[..|txs| - 1]);
      var tx := txs[|txs| - 1];
      var (u', err) := Apply(u, tx, cb, p);
      assert cb in u' by { ApplyKeys(u, tx, cb, p); }
      (u', PoolAfter(tx, err, p))
  }

  /** How the transaction after those ends. */
  ghost function EndOf(w: Accounts, cb: Address, pool: int, txs: seq<Tx>, tx: Tx): Err
    requires cb in w
  {
    Apply(After(w, cb, pool, txs).0, tx, cb, After(w, cb, pool, txs).1).1
  }

  lemma {:induction false} SettleFrom(w: Accounts, cb: Address, pool: int, txs: seq<Tx>, n: nat)
    requires cb in w && n <= |txs|
    ensures Settle(w, cb, pool, txs).0 == Settle(After(w, cb, pool, txs[..n]).0, cb, After(w, cb, pool, txs[..n]).1, txs[n..]).0
  {
    hide Apply;
    if n > 0 {
      SettleFrom(w, cb, pool, txs, n - 1);
      assert txs[..n][..n - 1] == txs[..n - 1];
      assert txs[n - 1..][1..] == txs[n..] && txs[n - 1..][0] == txs[n - 1];
    } else {
      assert txs[0..] == txs;
    }
  }

  /** A list from the front and from the back: the same accounts. */
  lemma SettleIsAfter(w: Accounts, cb: Address, pool: int, txs: seq<Tx>)
    requires cb in w
    ensures Settle(w, cb, pool, txs).0 == After(w, cb, pool, txs).0
  {
    hide Apply;
    SettleFrom(w, cb, pool, txs, |txs|);
    assert txs[..|txs|] == txs;
  }

  /** Nothing is made or lost, nobody is overdrawn, and nobody's code changes. */
  ghost predicate Settled(w: Accounts, w': Accounts) {
    && Sum(w') == Sum(w)
    && (NonNegative(w) ==> NonNegative(w'))
    && forall a :: Read(w', a).code == Read(w, a).code
  }

  lemma ApplySettled(w: Accounts, tx: Tx, cb: Address, pool: int)
    requires cb in w
    ensures Settled(w, Apply(w, tx, cb, pool).0)
  {
    hide Sum, Apply, NonNegative;
    ApplyConserves(w, tx, cb, pool);
    if NonNegative(w) { ApplyNonNegative(w, tx, cb, pool); }
    forall a ensures Read(Apply(w, tx, cb, pool).0, a).code == Read(w, a).code {
      NetEffect(w, tx, cb, pool, a);
    }
  }

  lemma SettledTrans(u: Accounts, v: Accounts, w: Accounts)
    requires Settled(u, v) && Settled(v, w)
    ensures Settled(u, w)
  {
  }

  lemma SettledRefl(w: Accounts)
    ensures Settled(w, w)
  {
  }

  /** Whole lists conserve ether. */
  lemma {:induction false} SettleConserves(w: Accounts, cb: Address, pool: int, txs: seq<Tx>)
    requires cb in w
    ensures Settled(w, Settle(w, cb, pool, txs).0) && |Settle(w, cb, pool, txs).1| <= |txs|
    decreases |txs|
  {
    hide Settled, Apply;
    if txs == [] {
      SettledRefl(w);
    } else {
      var (w', err) := Apply(w, txs[0], cb, pool);
      ApplyKeys(w, txs[0], cb, pool);
      ApplySettled(w, txs[0], cb, pool);
      SettleConserves(w', cb, PoolAfter(txs[0], err, pool), txs[1..]);
      SettledTrans(w, w', Settle(w, cb, pool, txs).0);
    }
  }
}
