/** Snapshots of the world state: whatever is done to the live state, setting the snapshot undoes it. */
module Snapshot {
  import opened Bytes
  import opened World
  import M = Merkle

  /**
   * A change to the live state. `SetTrie` stands for any change to the state's trie, `Flush` for State.Update
   * (while storage keys are whole words), `Forget` for dropping the cached objects, `Frame` for a nested call with a snapshot of its own, and `Stray` for a change through
   * a pointer that running code still holds, whether or not the state still uses that object.
   */
  datatype Op =
    | Load(addr: Address)
    | Create(addr: Address)
    | Pay(addr: Address, amount: int)
    | SetNonce(addr: Address, nonce: nat)
    | SetCode(addr: Address, code: Bytes)
    | Store(addr: Address, key: Bytes, value: nat)
    | Fetch(addr: Address, key: Bytes)
    | Mark(addr: Address)
    | Delete(addr: Address)
    | Flush
    | Forget
    | SetTrie(trie: map<Address, Record>)
    | Frame(ops: seq<Op>, fails: bool)
    | Stray(change: Op)

  /** Changes stay inside what the code can reach: the state's objects, objects held, and new ones. */
  method Perform(e: M.Env, s: State, op: Op, held: set<StateObject>) returns (held': set<StateObject>)
    requires s.Valid()
    modifies s, s.objects.Values, held
    ensures s.Valid() && fresh(held' + s.objects.Values - (held + old(s.objects.Values)))
    decreases op
  {
    hide Overlay, Touch, StateObject.Value, State.View, State.Values, StateObject.Sound, State.Calm, State.Tidy, State.Flushable, Cells, Meaning;
    held' := held + s.objects.Values;
    match op {
      case Create(addr) => var o := s.NewObject(addr);
      case Flush => if s.Flushable() { s.Update(e); }
      case Forget => s.objects := map[];
      case SetTrie(trie) => s.trie := trie;
      case Frame(ops, fails) => held' := RunFrame(e, s, ops, fails, held);
      case Stray(change) =>
        if held != {} {
          var o :| o in held;
          Change(o, change);
        }
      case _ => PerformOne(s, op);
    }
  }

  /** A change to one account. */
  method PerformOne(s: State, op: Op)
    requires s.Valid() && !op.Flush? && !op.Forget? && !op.SetTrie? && !op.Frame? && !op.Stray?
    modifies s, s.objects.Values
    ensures s.Valid() && fresh(s.objects.Values - old(s.objects.Values))
  {
    hide Overlay, Touch, StateObject.Value, State.View, State.Values, StateObject.Sound, State.Calm, State.Tidy, State.Flushable, Cells, Meaning;
    var o := s.GetOrNew(op.addr);
    if op.Delete? { s.DeleteObject(o); } else { Change(o, op); }
  }

  method Change(o: StateObject, op: Op)
    modifies o
  {
    match op {
      case Pay(_, amount) => o.AddAmount(amount);
      case SetNonce(_, nonce) => o.nonce := nonce;
      case SetCode(_, code) => o.code := code;
      case Store(_, key, value) => o.SetStorage(key, value);
      case Fetch(_, key) => var v := o.GetStorage(key);
      case Mark(_) => o.removed := true;
      case _ =>
    }
  }

  method PerformAll(e: M.Env, s: State, ops: seq<Op>, held: set<StateObject>) returns (held': set<StateObject>)
    requires s.Valid()
    modifies s, s.objects.Values, held
    ensures s.Valid() && fresh(held' + s.objects.Values - (held + old(s.objects.Values)))
    decreases ops, 0
  {
    held' := held;
    for i := 0 to |ops|
      invariant s.Valid() && fresh(held' + s.objects.Values - (held + old(s.objects.Values)))
    {
      held' := Perform(e, s, ops[i], held');
    }
  }

  /**
   * Copy, then any sequence of changes, then Set on failure. A failed frame leaves every balance, nonce,
   * code and storage cell as it was at the Copy, and gas pools and removal marks as Copy leaves them.
   */
  method RunFrame(e: M.Env, s: State, ops: seq<Op>, fails: bool, held: set<StateObject>) returns (held': set<StateObject>)
    requires s.Valid()
    modifies s, s.objects.Values, held
    ensures s.Valid() && fresh(held' + s.objects.Values - (held + old(s.objects.Values)))
    ensures fails ==> s.View() == old(s.View()) && s.objects.Keys == old(s.objects.Keys) && fresh(s.objects.Values)
    ensures fails ==> forall a :: a in s.objects ==> s.objects[a].gasPool == old(s.objects[a].gasPool) && !s.objects[a].removed
    ensures fails ==> (old(s.Calm()) ==> s.Calm()) && (old(s.Tidy()) ==> s.Tidy())
    decreases ops, 1
  {
    hide Overlay, StateObject.Value, State.View, State.Values, StateObject.Sound, State.Calm, State.Tidy, State.Flushable, Cells, Meaning;
    var snapshot := s.Copy();
    assert snapshot.objects.Values !! s.objects.Values + held;
    ghost var kept := snapshot.View();
    held' := PerformAll(e, s, ops, held + s.objects.Values);
    assert snapshot.View() == kept;
    if fails { s.Set(snapshot); }
  }
}
