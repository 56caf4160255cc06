/**
 * The event reactor of ethreact/reactor.go as a state machine. Each step is one action that the
 * locks and channel operations make atomic; a run interleaves callers and the dispatch loop freely.
 */
module Reactor {

  const EVENT_BUFFER_SIZE := 10

  type Chan = int

  datatype Event = Event(name: string, resource: int)

  // ------------------------------------------------------- handlers' channels

  /** The loop of EventHandler.Remove: it walks the old slice while shifting elements inside it. */
  datatype Removal = Removal(arr: seq<Chan>, len: nat, panicked: bool) {
    ghost predicate Valid() {
      len <= |arr|
    }
    function Chans(): seq<Chan>
      requires Valid()
    {
      arr[..len]
    }
  }

  /** append(s[:i], s[i+1:]...) on a slice of length len, which panics past its end. */
  function CutOut(r: Removal, i: nat): (r': Removal)
    requires r.Valid()
    ensures r'.Valid() && |r'.arr| == |r.arr|
  {
    if i + 1 > r.len then r.(panicked := true)
    else Removal(r.arr[..i] + r.arr[i + 1..r.len] + r.arr[r.len - 1..], r.len - 1, false)
  }

  function RemoveFrom(r: Removal, ch: Chan, i: nat): (r': Removal)
    requires r.Valid() && i <= |r.arr|
    ensures r'.Valid()
    decreases |r.arr| - i
  {
    if i == |r.arr| || r.panicked then r
    else if r.arr[i] == ch then RemoveFrom(CutOut(r, i), ch, i + 1)
    else RemoveFrom(r, ch, i + 1)
  }

  function Remove(chans: seq<Chan>, ch: Chan): (r: Removal)
    ensures r.Valid()
  {
    RemoveFrom(Removal(chans, |chans|, false), ch, 0)
  }

  method RemoveLoop(chans: seq<Chan>, ch: Chan) returns (left: seq<Chan>, panicked: bool)
    ensures left == Remove(chans, ch).Chans() && panicked == Remove(chans, ch).panicked
  {
    var r := Removal(chans, |chans|, false);
    var i := 0;
    while i < |chans| && !r.panicked
      invariant 0 <= i <= |chans| == |r.arr| && r.Valid()
      invariant RemoveFrom(r, ch, i) == Remove(chans, ch)
      decreases |chans| - i
    {
      if r.arr[i] == ch { r := CutOut(r, i); }
      i := i + 1;
    }
    return r.Chans(), r.panicked;
  }

  ghost predicate Distinct(chans: seq<Chan>) {
    forall i, j :: 0 <= i < j < |chans| ==> chans[i] != chans[j]
  }

  /** Cutting out one element takes only that element, and keeps the rest in order. */
  lemma CutOutChans(r: Removal, i: nat)
    requires r.Valid() && i < r.len
    ensures CutOut(r, i).Chans() == r.Chans()[..i] + r.Chans()[i + 1..]
  {
  }

  /** Whatever Remove does, other channels stay, nothing new comes in, and no channel is doubled. */
  lemma {:induction false} RemoveKeeps(r: Removal, ch: Chan, i: nat)
    requires r.Valid() && i <= |r.arr|
    ensures var left := RemoveFrom(r, ch, i).Chans();
      && (forall c :: c in left ==> c in r.Chans())
      && (forall c :: c in r.Chans() && c != ch ==> c in left)
      && (Distinct(r.Chans()) ==> Distinct(left))
    decreases |r.arr| - i
  {
    if i < |r.arr| && !r.panicked {
      if r.arr[i] == ch {
        var r' := CutOut(r, i);
        if i < r.len {
          CutOutChans(r, i);
          CutOutMembers(r.Chans(), i, r'.Chans());
          assert r.Chans()[i] == ch;
        }
        RemoveKeeps(r', ch, i + 1);
      } else {
        RemoveKeeps(r, ch, i + 1);
      }
    }
  }

  lemma RemoveKeepsOthers(chans: seq<Chan>, ch: Chan)
    ensures var left := Remove(chans, ch).Chans();
      && (forall c :: c in left ==> c in chans)
      && (forall c :: c in chans && c != ch ==> c in left)
      && (Distinct(chans) ==> Distinct(left))
  {
    assert chans[..|chans|] == chans;
    RemoveKeeps(Removal(chans, |chans|, false), ch, 0);
  }

  lemma CutOutMembers(s: seq<Chan>, i: nat, t: seq<Chan>)
    requires i < |s| && t == s[..i] + s[i + 1..]
    ensures forall c :: c in t ==> c in s
    ensures forall c :: c in s && c != s[i] ==> c in t
    ensures Distinct(s) ==> Distinct(t)
  {
    forall c | c in s && c != s[i] ensures c in t {
      var k :| 0 <= k < |s| && s[k] == c;
      assert t[if k < i then k else k - 1] == c;
    }
  }

  /** What removing one element at a time leaves when the one after each removed element is not looked at. */
  function Skipping(s: seq<Chan>, ch: Chan): seq<Chan> {
    if s == [] then []
    else if s[0] != ch then [s[0]] + Skipping(s[1..], ch)
    else if |s| == 1 then []
    else [s[1]] + Skipping(s[2..], ch)
  }

  /** The last entry is the channel, and not its only one: the loop then runs into the stale end of the slice. */
  predicate Overruns(s: seq<Chan>, ch: Chan) {
    s != [] && s[|s| - 1] == ch && ch in s[..|s| - 1]
  }

  /** The loop at index i has passed p entries and cut out p - i of them; what it cut out, the last entry replaces. */
  ghost predicate Midway(r: Removal, s: seq<Chan>, i: nat, p: nat) {
    && !r.panicked && i <= p <= |s| == |r.arr| && r.len == |s| - (p - i)
    && r.arr[i..r.len] == s[p..]
    && forall q :: r.len <= q < |s| ==> r.arr[q] == s[|s| - 1]
  }

  /** How the loop ends from halfway on. */
  ghost predicate Ends(r: Removal, r': Removal, s: seq<Chan>, ch: Chan, i: nat, p: nat)
    requires r.Valid() && r'.Valid() && Midway(r, s, i, p)
  {
    if (i < p && s[|s| - 1] == ch) || Overruns(s[p..], ch) then r'.panicked
    else !r'.panicked && r'.Chans() == r.arr[..i] + Skipping(s[p..], ch)
  }

  lemma {:induction false} RemoveRest(r: Removal, s: seq<Chan>, ch: Chan, i: nat, p: nat)
    requires r.Valid() && Midway(r, s, i, p)
    ensures Ends(r, RemoveFrom(r, ch, i), s, ch, i, p)
    decreases |s| - p, 1
  {
    if p == |s| {
      RemoveStale(r, s, ch, i);
    } else {
      assert r.arr[i] == r.arr[i..r.len][0] == s[p];
      if s[p] != ch {
        PassMidway(r, s, i, p);
        RemoveRest(r, s, ch, i + 1, p + 1);
        PassEnds(r, RemoveFrom(r, ch, i), s, ch, i, p);
      } else if p + 1 == |s| {
        var r' := CutOut(r, i);
        assert s[p..] == [ch] && r'.Chans() == r.arr[..i];
        assert r'.arr == r.arr;
        if i + 1 < |s| {
          assert r.arr[i + 1] == ch && CutOut(r', i + 1).panicked;
          assert RemoveFrom(r', ch, i + 1) == RemoveFrom(CutOut(r', i + 1), ch, i + 2);
        }
      } else {
        CutMidway(r, s, i, p);
        RemoveRest(CutOut(r, i), s, ch, i + 1, p + 2);
        CutEnds(r, RemoveFrom(r, ch, i), s, ch, i, p);
      }
    }
  }

  lemma PassMidway(r: Removal, s: seq<Chan>, i: nat, p: nat)
    requires r.Valid() && Midway(r, s, i, p) && p < |s|
    ensures Midway(r, s, i + 1, p + 1)
  {
    assert r.arr[i + 1..r.len] == r.arr[i..r.len][1..] == s[p..][1..] == s[p + 1..];
  }

  lemma PassEnds(r: Removal, r': Removal, s: seq<Chan>, ch: Chan, i: nat, p: nat)
    requires r.Valid() && r'.Valid() && Midway(r, s, i, p) && p < |s| && s[p] != ch && r.arr[i] == s[p]
    requires Midway(r, s, i + 1, p + 1) && Ends(r, r', s, ch, i + 1, p + 1)
    ensures Ends(r, r', s, ch, i, p)
  {
    var t := s[p..];
    assert t[1..] == s[p + 1..] && r.arr[..i + 1] == r.arr[..i] + [s[p]];
    OverrunsTail(t, ch);
  }

  lemma CutEnds(r: Removal, r': Removal, s: seq<Chan>, ch: Chan, i: nat, p: nat)
    requires r.Valid() && r'.Valid() && Midway(r, s, i, p) && p + 1 < |s| && s[p] == ch
    requires var c := CutOut(r, i); Midway(c, s, i + 1, p + 2) && c.arr[i] == s[p + 1] && Ends(c, r', s, ch, i + 1, p + 2)
    ensures Ends(r, r', s, ch, i, p)
  {
    var t, c := s[p..], CutOut(r, i);
    assert t[2..] == s[p + 2..] && c.arr[..i + 1] == r.arr[..i] + [s[p + 1]];
    assert t[0] in t[..|t| - 1];
    if Overruns(s[p + 2..], ch) { assert s[|s| - 1] == ch; }
  }

  lemma OverrunsTail(s: seq<Chan>, ch: Chan)
    requires s != [] && s[0] != ch
    ensures Overruns(s, ch) <==> Overruns(s[1..], ch)
  {
    if |s| > 1 { assert s[..|s| - 1] == [s[0]] + s[1..][..|s| - 2]; }
  }

  lemma CutMidway(r: Removal, s: seq<Chan>, i: nat, p: nat)
    requires r.Valid() && Midway(r, s, i, p) && p + 1 < |s|
    ensures var r' := CutOut(r, i); Midway(r', s, i + 1, p + 2) && r'.arr[i] == s[p + 1]
  {
    var r' := CutOut(r, i);
    forall q | i <= q < r'.len ensures r'.arr[q] == s[p + 1..][q - i] {
      assert r'.arr[q] == r.arr[q + 1] == r.arr[i..r.len][q + 1 - i];
    }
    forall q | r'.len <= q < |s| ensures r'.arr[q] == s[|s| - 1] {
      if q == r'.len { assert r.arr[r.len - 1] == r.arr[i..r.len][r.len - 1 - i]; }
    }
    assert r'.arr[i + 1..r'.len] == s[p + 2..];
  }

  /** Past the last entry only copies of it are left to look at. */
  lemma RemoveStale(r: Removal, s: seq<Chan>, ch: Chan, i: nat)
    requires r.Valid() && Midway(r, s, i, |s|)
    ensures var r' := RemoveFrom(r, ch, i);
      if i < |s| && s[|s| - 1] == ch then r'.panicked else !r'.panicked && r'.Chans() == r.arr[..i]
  {
    if i < |s| && s[|s| - 1] != ch { SkipTo(r, ch, i, |s|); }
  }

  /** What Remove does, for every list: it panics, or leaves the channels that the shifting loop leaves. */
  lemma RemoveIs(chans: seq<Chan>, ch: Chan)
    ensures Remove(chans, ch).panicked <==> Overruns(chans, ch)
    ensures !Remove(chans, ch).panicked ==> Remove(chans, ch).Chans() == Skipping(chans, ch)
  {
    var r := Removal(chans, |chans|, false);
    assert chans[0..] == chans && r.arr[0..r.len] == chans;
    RemoveRest(r, chans, ch, 0, 0);
  }

  predicate Adjacent(s: seq<Chan>, ch: Chan) {
    exists i :: 0 <= i < |s| - 1 && s[i] == ch && s[i + 1] == ch
  }

  lemma {:induction false} SkippingKeeps(s: seq<Chan>, ch: Chan)
    ensures ch in Skipping(s, ch) <==> Adjacent(s, ch)
    ensures !Adjacent(s, ch) ==> Skipping(s, ch) == Without(s, ch)
  {
    if s != [] {
      if s[0] != ch {
        SkippingKeeps(s[1..], ch);
        AdjacentTail(s, ch, 1);
      } else if |s| > 1 {
        SkippingKeeps(s[2..], ch);
        if s[1] == ch {
          assert s[0] == ch && s[0 + 1] == ch;
        } else {
          AdjacentTail(s, ch, 1);
          AdjacentTail(s[1..], ch, 1);
          assert s[1..][1..] == s[2..];
        }
      }
    }
  }

  lemma AdjacentTail(s: seq<Chan>, ch: Chan, n: nat)
    requires n == 1 <= |s| && (s[0] != ch || |s| == 1 || s[1] != ch)
    ensures Adjacent(s, ch) <==> Adjacent(s[1..], ch)
  {
    if Adjacent(s, ch) {
      var i :| 0 <= i < |s| - 1 && s[i] == ch && s[i + 1] == ch;
      assert s[1..][i - 1] == ch && s[1..][i - 1 + 1] == ch;
    }
    if Adjacent(s[1..], ch) {
      var i :| 0 <= i < |s| - 2 && s[1..][i] == ch && s[1..][i + 1] == ch;
      assert s[i + 1] == ch && s[i + 1 + 1] == ch;
    }
  }

  /** The channels other than ch, in order. */
  function Without(s: seq<Chan>, ch: Chan): seq<Chan> {
    if s == [] then [] else (if s[0] == ch then [] else [s[0]]) + Without(s[1..], ch)
  }

  /**
   * Remove takes a channel away, without a panic, exactly when the list has no two entries for it in a row and does
   * not end in one of several; what is left is then every other channel in order.
   */
  lemma RemoveExactly(chans: seq<Chan>, ch: Chan)
    ensures var r := Remove(chans, ch);
      !r.panicked && ch !in r.Chans() <==> !Adjacent(chans, ch) && !Overruns(chans, ch)
    ensures !Adjacent(chans, ch) && !Overruns(chans, ch) ==> Remove(chans, ch).Chans() == Without(chans, ch)
  {
    RemoveIs(chans, ch);
    SkippingKeeps(chans, ch);
  }

  lemma {:induction false} SkipTo(r: Removal, ch: Chan, i: nat, j: nat)
    requires r.Valid() && i <= j <= |r.arr| && !r.panicked
    requires forall k :: i <= k < j ==> r.arr[k] != ch
    ensures RemoveFrom(r, ch, i) == RemoveFrom(r, ch, j)
    decreases j - i
  {
    if i < j { SkipTo(r, ch, i + 1, j); }
  }

  /** Removing a channel that is subscribed twice can leave it subscribed, or panic. */
  lemma RemoveTwice(a: Chan, b: Chan)
    requires a != b
    ensures Remove([a, a, b], a).Chans() == [a, b] && !Remove([a, a, b], a).panicked
    ensures Remove([a, b, a], a).panicked
    ensures !Remove([a, b, a, b], a).panicked && Remove([a, b, a, b], a).Chans() == [b, b]
  {
    hide Remove;
    var s, q, t := [a, a, b], [a, b, a], [a, b, a, b];
    RemoveIs(s, a);
    assert s[2..] == [b] && [b][1..] == [] && Skipping([b], a) == [b] + Skipping([], a);
    RemoveIs(q, a);
    assert q[..2][0] == a;
    RemoveIs(t, a);
    assert t[2..] == [a, b] && [a, b][2..] == [] && Skipping([a, b], a) == [b] + Skipping([], a);
  }

  // ------------------------------------------------------------ the machine

  /**
   * Where the dispatch goroutine is: not started, at its select, holding an event it has taken,
   * inside EventHandler.Post with the first `next` channels done, or about to stop.
   */
  datatype Loop = Off | Select | Taken(idx: nat) | Posting(idx: nat, handler: nat, next: nat) | Quitting

  /** One send: the channel, and the position of the event among all accepted posts. */
  datatype Sent = Sent(ch: Chan, idx: nat)

  datatype Handler = Handler(name: string, chans: seq<Chan>)

  /**
   * `handlers` holds every handler ever made, so that the dispatch loop can hold on to one that the
   * table has dropped. `posts`, `log` and `subs` record what was accepted, sent and subscribed.
   */
  datatype State = State(
    running: bool, queue: seq<Event>, quits: nat, loop: Loop,
    handlers: seq<Handler>, table: map<string, nat>,
    posts: seq<Event>, log: seq<Sent>, subs: set<(string, Chan)>)

  function New(): State {
    State(false, [], 0, Off, [], map[], [], [], {})
  }

  datatype Step =
    | Start
    | Stop
    | Subscribe(name: string, ch: Chan)
    | Unsubscribe(name: string, ch: Chan)
    | Post(event: Event)
    | TakeEvent
    | FindHandler
    | SendNext(ready: bool)
    | TakeQuit
    | FinishQuit

  /** EventHandler.Post holds a read lock, so its handler's channels cannot change meanwhile. */
  predicate Locked(s: State, h: nat) {
    s.loop.Posting? && s.loop.handler == h
  }

  /** Whether a step can be taken; a blocked step waits. Stop and Post do nothing while not running. */
  predicate Enabled(s: State, step: Step) {
    match step
    case Start => true
    case Stop => s.running ==> s.quits == 0
    case Subscribe(name, _) => name in s.table ==> !Locked(s, s.table[name])
    case Unsubscribe(name, _) => name in s.table ==> !Locked(s, s.table[name])
    case Post(_) => s.running ==> |s.queue| < EVENT_BUFFER_SIZE
    case TakeEvent => s.loop.Select? && s.queue != []
    case FindHandler => s.loop.Taken?
    case SendNext(_) => s.loop.Posting?
    case TakeQuit => s.loop.Select? && s.quits > 0
    case FinishQuit => s.loop.Quitting?
  }

  predicate WellFormed(s: State) {
    && (forall name :: name in s.table ==> s.table[name] < |s.handlers| && s.handlers[s.table[name]].name == name)
    && |s.queue| <= |s.posts|
    && ((s.loop.Taken? || s.loop.Posting?) ==> s.loop.idx < |s.posts|)
    && (s.loop.Posting? ==>
         s.loop.handler < |s.handlers| && s.loop.next <= |s.handlers[s.loop.handler].chans|
         && s.handlers[s.loop.handler].name == s.posts[s.loop.idx].name)
  }

  function Subscribing(s: State, name: string, ch: Chan): (s': State)
    requires WellFormed(s) && (name in s.table ==> !Locked(s, s.table[name]))
    ensures WellFormed(s')
  {
    var s1 := if name in s.table then s
              else s.(handlers := s.handlers + [Handler(name, [])], table := s.table[name := |s.handlers|]);
    var h := s1.table[name];
    s1.(handlers := s1.handlers[h := Handler(name, s1.handlers[h].chans + [ch])], subs := s1.subs + {(name, ch)})
  }

  /** A panic in Remove leaves the table as it was. */
  function Unsubscribing(s: State, name: string, ch: Chan): (s': State)
    requires WellFormed(s) && (name in s.table ==> !Locked(s, s.table[name]))
    ensures WellFormed(s')
  {
    if name !in s.table then s
    else
      var h := s.table[name];
      var r := Remove(s.handlers[h].chans, ch);
      s.(handlers := s.handlers[h := Handler(name, r.Chans())],
         table := if r.len == 0 && !r.panicked then s.table - {name} else s.table)
  }

  function Next(s: State, step: Step): (s': State)
    requires WellFormed(s) && Enabled(s, step)
    ensures WellFormed(s')
  {
    match step
    case Start => if s.running then s else s.(running := true, loop := Select)
    case Stop => if s.running then s.(quits := s.quits + 1) else s
    case Subscribe(name, ch) => Subscribing(s, name, ch)
    case Unsubscribe(name, ch) => Unsubscribing(s, name, ch)
    case Post(event) => if s.running then s.(queue := s.queue + [event], posts := s.posts + [event]) else s
    case TakeEvent => s.(queue := s.queue[1..], loop := Taken(|s.posts| - |s.queue|))
    case FindHandler =>
      var name := s.posts[s.loop.idx].name;
      s.(loop := if name in s.table then Posting(s.loop.idx, s.table[name], 0) else Select)
    case SendNext(ready) =>
      var chans := s.handlers[s.loop.handler].chans;
      if s.loop.next == |chans| then s.(loop := Select)
      else s.(loop := s.loop.(next := s.loop.next + 1),
              log := if ready then s.log + [Sent(chans[s.loop.next], s.loop.idx)] else s.log)
    case TakeQuit => s.(quits := s.quits - 1, loop := Quitting)
    case FinishQuit => s.(running := false, loop := Off)
  }

  /** A run: each step enabled in the state the steps before it lead to. */
  ghost predicate IsRun(s: State, steps: seq<Step>)
    decreases |steps|
  {
    WellFormed(s) && (steps != [] ==> Enabled(s, steps[0]) && IsRun(Next(s, steps[0]), steps[1..]))
  }

  ghost function After(s: State, steps: seq<Step>): (s': State)
    requires IsRun(s, steps)
    ensures WellFormed(s')
    decreases |steps|
  {
    if steps == [] then s else After(Next(s, steps[0]), steps[1..])
  }

  // -------------------------------------------------------------- invariants

  /** The number of events fully dispatched; the queue holds those not yet taken. */
  function Done(s: State): int {
    |s.posts| - |s.queue| - (if s.loop.Taken? || s.loop.Posting? then 1 else 0)
  }

  ghost predicate Ordered(log: seq<Sent>) {
    forall i, j :: 0 <= i < j < |log| ==> log[i].idx <= log[j].idx
  }

  /**
   * One dispatch loop at most; the queue is the untaken rest of the accepted posts; sends are in post
   * order and each is of an event under a name its channel was subscribed to.
   */
  ghost predicate Inv(s: State) {
    && WellFormed(s)
    && (s.running <==> !s.loop.Off?)
    && s.queue == s.posts[|s.posts| - |s.queue|..]
    && ((s.loop.Taken? || s.loop.Posting?) ==> s.loop.idx == |s.posts| - |s.queue| - 1)
    && Ordered(s.log)
    && (forall i :: 0 <= i < |s.log| ==> SentOk(s, s.log[i]))
    && (forall h :: 0 <= h < |s.handlers| ==> Subscribed(s, s.handlers[h]))
  }

  ghost predicate SentOk(s: State, x: Sent) {
    && x.idx < Done(s) + (if s.loop.Posting? then 1 else 0)
    && x.idx < |s.posts|
    && (s.posts[x.idx].name, x.ch) in s.subs
  }

  ghost predicate Subscribed(s: State, h: Handler) {
    forall c :: c in h.chans ==> (h.name, c) in s.subs
  }

  ghost predicate Listening(s: State, name: string, ch: Chan)
    requires WellFormed(s)
  {
    name in s.table && ch in s.handlers[s.table[name]].chans
  }

  lemma UnsubscribeListening(s: State, name: string, ch: Chan)
    requires WellFormed(s) && Enabled(s, Unsubscribe(name, ch))
    ensures forall n, c :: Listening(s, n, c) && !(n == name && c == ch) ==>
      Listening(Unsubscribing(s, name, ch), n, c)
  {
    if name in s.table {
      var h := s.table[name];
      var chans := s.handlers[h].chans;
      RemoveKeepsOthers(chans, ch);
      var s' := Unsubscribing(s, name, ch);
      forall n, c | Listening(s, n, c) && !(n == name && c == ch) ensures Listening(s', n, c) {
        if n == name {
          assert c in Remove(chans, ch).Chans();
        } else {
          assert s.table[n] != h;
        }
      }
    }
  }

  /** How a step changes one handler: it keeps its name, and its channels are only added to or taken from. */
  ghost predicate Evolves(step: Step, before: Handler, after: Handler) {
    && after.name == before.name
    && (forall c :: c in after.chans ==>
         c in before.chans || (step == Subscribe(after.name, c)))
    && (forall c :: c in before.chans ==> c in after.chans || step == Unsubscribe(after.name, c))
    && (Distinct(before.chans) && !(step.Subscribe? && step.name == before.name && step.ch in before.chans) ==>
         Distinct(after.chans))
  }

  lemma HandlersNext(s: State, step: Step)
    requires WellFormed(s) && Enabled(s, step)
    ensures var s' := Next(s, step);
      && |s.handlers| <= |s'.handlers|
      && (forall h :: 0 <= h < |s.handlers| ==> Evolves(step, s.handlers[h], s'.handlers[h]))
      && (forall h :: |s.handlers| <= h < |s'.handlers| ==>
           step.Subscribe? && s'.handlers[h] == Handler(step.name, [step.ch]))
      && (forall name, c :: Listening(s, name, c) && step != Unsubscribe(name, c) ==> Listening(s', name, c))
  {
    hide Subscribing, Unsubscribing, Evolves;
    match step
    case Unsubscribe(name, ch) =>
      UnsubscribeEvolves(s, name, ch);
      UnsubscribeListening(s, name, ch);
    case Subscribe(name, ch) =>
      SubscribeEvolves(s, name, ch);
    case _ =>
      forall h | 0 <= h < |s.handlers| ensures Evolves(step, s.handlers[h], s.handlers[h]) {
        EvolvesRefl(step, s.handlers[h]);
      }
  }

  lemma EvolvesRefl(step: Step, h: Handler)
    ensures Evolves(step, h, h)
  {
  }

  lemma UnsubscribeEvolves(s: State, name: string, ch: Chan)
    requires WellFormed(s) && Enabled(s, Unsubscribe(name, ch))
    ensures var s' := Unsubscribing(s, name, ch);
      && |s'.handlers| == |s.handlers|
      && forall h :: 0 <= h < |s.handlers| ==> Evolves(Unsubscribe(name, ch), s.handlers[h], s'.handlers[h])
  {
    hide Remove;
    if name in s.table { RemoveKeepsOthers(s.handlers[s.table[name]].chans, ch); }
  }

  lemma SubscribeEvolves(s: State, name: string, ch: Chan)
    requires WellFormed(s) && Enabled(s, Subscribe(name, ch))
    ensures var s' := Subscribing(s, name, ch);
      && |s.handlers| <= |s'.handlers|
      && (forall h :: 0 <= h < |s.handlers| ==> Evolves(Subscribe(name, ch), s.handlers[h], s'.handlers[h]))
      && (forall h :: |s.handlers| <= h < |s'.handlers| ==> s'.handlers[h] == Handler(name, [ch]))
      && forall n, c :: Listening(s, n, c) ==> Listening(s', n, c)
  {
  }

  lemma SubscribedNext(s: State, step: Step)
    requires Inv(s) && Enabled(s, step)
    ensures var s' := Next(s, step); forall h :: 0 <= h < |s'.handlers| ==> Subscribed(s', s'.handlers[h])
  {
    hide SentOk, Ordered, Remove;
    var s' := Next(s, step);
    HandlersNext(s, step);
    forall h | 0 <= h < |s'.handlers| ensures Subscribed(s', s'.handlers[h]) {
      if h < |s.handlers| { assert Subscribed(s, s.handlers[h]); }
    }
  }

  lemma SentNext(s: State, step: Step)
    requires Inv(s) && Enabled(s, step)
    ensures var s' := Next(s, step); forall i :: 0 <= i < |s'.log| ==> SentOk(s', s'.log[i])
  {
    hide Ordered, Remove;
    var s' := Next(s, step);
    forall i | 0 <= i < |s'.log| ensures SentOk(s', s'.log[i]) {
      if i < |s.log| {
        assert s'.log[i] == s.log[i] && SentOk(s, s.log[i]);
      } else {
        assert Subscribed(s, s.handlers[s.loop.handler]);
      }
    }
  }

  lemma InvNext(s: State, step: Step)
    requires Inv(s) && Enabled(s, step)
    ensures Inv(Next(s, step))
  {
    hide Subscribed, Remove;
    SubscribedNext(s, step);
    SentNext(s, step);
  }

  /** No channel is listed twice, and an event in hand has not yet been sent to the channels still to come. */
  ghost predicate Once(s: State) {
    && Inv(s)
    && (forall h :: 0 <= h < |s.handlers| ==> Distinct(s.handlers[h].chans))
    && (forall i, j :: 0 <= i < j < |s.log| ==> s.log[i] != s.log[j])
    && (s.loop.Posting? ==>
         forall i :: 0 <= i < |s.log| && s.log[i].idx == s.loop.idx ==>
           s.log[i].ch in s.handlers[s.loop.handler].chans[..s.loop.next])
  }

  /** A subscription that does not repeat one in force. */
  ghost predicate Fresh(s: State, step: Step)
    requires WellFormed(s)
  {
    step.Subscribe? && step.name in s.table ==> step.ch !in s.handlers[s.table[step.name]].chans
  }

  lemma OnceNext(s: State, step: Step)
    requires Once(s) && Enabled(s, step) && Fresh(s, step)
    ensures Once(Next(s, step))
  {
    var s' := Next(s, step);
    InvNext(s, step);
    HandlersNext(s, step);
    if step.FindHandler? && s'.loop.Posting? {
      forall i | 0 <= i < |s'.log| ensures s'.log[i].idx != s'.loop.idx {
        assert SentOk(s, s.log[i]);
      }
    }
  }

  ghost predicate FreshRun(s: State, steps: seq<Step>)
    requires IsRun(s, steps)
    decreases |steps|
  {
    steps != [] ==> Fresh(s, steps[0]) && FreshRun(Next(s, steps[0]), steps[1..])
  }

  lemma {:induction false} InvRun(s: State, steps: seq<Step>)
    requires IsRun(s, steps) && Inv(s)
    ensures Inv(After(s, steps))
    decreases |steps|
  {
    if steps != [] {
      InvNext(s, steps[0]);
      InvRun(Next(s, steps[0]), steps[1..]);
    }
  }

  lemma {:induction false} OnceRun(s: State, steps: seq<Step>)
    requires IsRun(s, steps) && FreshRun(s, steps) && Once(s)
    ensures Once(After(s, steps))
    decreases |steps|
  {
    if steps != [] {
      OnceNext(s, steps[0]);
      OnceRun(Next(s, steps[0]), steps[1..]);
    }
  }

  // ------------------------------------------------------------ the promises

  /** What one channel has been sent: positions of posts, in sending order. */
  ghost function Received(log: seq<Sent>, ch: Chan): seq<nat> {
    if log == [] then []
    else
      var x := log[|log| - 1];
      Received(log[..|log| - 1], ch) + (if x.ch == ch then [x.idx] else [])
  }

  lemma {:induction false} ReceivedFrom(log: seq<Sent>, ch: Chan, k: nat)
    requires k < |Received(log, ch)|
    ensures exists i :: 0 <= i < |log| && log[i] == Sent(ch, Received(log, ch)[k])
  {
    var init := log[..|log| - 1];
    if k < |Received(init, ch)| {
      ReceivedFrom(init, ch, k);
      var i :| 0 <= i < |init| && init[i] == Sent(ch, Received(init, ch)[k]);
      assert log[i] == init[i];
    } else {
      assert log[|log| - 1] == Sent(ch, Received(log, ch)[k]);
    }
  }

  lemma {:induction false} ReceivedOrdered(log: seq<Sent>, ch: Chan, j: nat, k: nat)
    requires Ordered(log) && j < k < |Received(log, ch)|
    ensures Received(log, ch)[j] <= Received(log, ch)[k]
    ensures (forall i, l :: 0 <= i < l < |log| ==> log[i] != log[l]) ==> Received(log, ch)[j] < Received(log, ch)[k]
  {
    var init := log[..|log| - 1];
    if k < |Received(init, ch)| {
      ReceivedOrdered(init, ch, j, k);
    } else {
      ReceivedFrom(init, ch, j);
      var i :| 0 <= i < |init| && init[i] == Sent(ch, Received(init, ch)[j]);
      assert log[i] == init[i];
    }
  }

  /**
   * In every run, a channel receives accepted posts only, in post order and under names it subscribed
   * to; and if no subscription repeats one in force, it receives no post twice.
   */
  lemma OrderedDelivery(steps: seq<Step>, ch: Chan)
    requires IsRun(New(), steps)
    ensures var s := After(New(), steps); var got := Received(s.log, ch);
      && (forall k :: 0 <= k < |got| ==> got[k] < |s.posts| && (s.posts[got[k]].name, ch) in s.subs)
      && (forall j, k :: 0 <= j < k < |got| ==> got[j] <= got[k])
      && (FreshRun(New(), steps) ==> forall j, k :: 0 <= j < k < |got| ==> got[j] < got[k])
  {
    hide After, Received, Inv, Once;
    var s := After(New(), steps);
    StartOk();
    InvRun(New(), steps);
    ReceivedOk(s, ch);
    if FreshRun(New(), steps) {
      OnceRun(New(), steps);
      ReceivedOnce(s, ch);
    }
  }

  lemma StartOk()
    ensures Inv(New()) && Once(New())
  {
  }

  lemma ReceivedOk(s: State, ch: Chan)
    requires Inv(s)
    ensures var got := Received(s.log, ch);
      && (forall k :: 0 <= k < |got| ==> got[k] < |s.posts| && (s.posts[got[k]].name, ch) in s.subs)
      && (forall j, k :: 0 <= j < k < |got| ==> got[j] <= got[k])
  {
    hide Received;
    var got := Received(s.log, ch);
    forall k | 0 <= k < |got| ensures got[k] < |s.posts| && (s.posts[got[k]].name, ch) in s.subs {
      ReceivedFrom(s.log, ch, k);
      var i :| 0 <= i < |s.log| && s.log[i] == Sent(ch, got[k]);
      assert SentOk(s, s.log[i]);
    }
    forall j, k | 0 <= j < k < |got| ensures got[j] <= got[k] { ReceivedOrdered(s.log, ch, j, k); }
  }

  lemma ReceivedOnce(s: State, ch: Chan)
    requires Once(s)
    ensures var got := Received(s.log, ch); forall j, k :: 0 <= j < k < |got| ==> got[j] < got[k]
  {
    hide Received;
    var got := Received(s.log, ch);
    forall j, k | 0 <= j < k < |got| ensures got[j] < got[k] { ReceivedOrdered(s.log, ch, j, k); }
  }

  // ----------------------------------------------------------------- no loss

  /** A step that neither unsubscribes the channel nor finds it blocked. */
  ghost predicate Kind(s: State, step: Step, name: string, ch: Chan)
    requires WellFormed(s) && Enabled(s, step)
  {
    && !(step.Unsubscribe? && step.name == name && step.ch == ch)
    && (step.SendNext? && !step.ready ==>
         var chans := s.handlers[s.loop.handler].chans; s.loop.next < |chans| ==> chans[s.loop.next] != ch)
  }

  ghost predicate KindRun(s: State, steps: seq<Step>, name: string, ch: Chan)
    requires IsRun(s, steps)
    decreases |steps|
  {
    steps != [] ==> Kind(s, steps[0], name, ch) && KindRun(Next(s, steps[0]), steps[1..], name, ch)
  }

  /** Every event of this name from position `from` on that is done has been sent to the channel. */
  ghost predicate Caught(s: State, name: string, ch: Chan, from: nat) {
    && Inv(s) && Listening(s, name, ch)
    && (forall idx :: from <= idx < Done(s) && s.posts[idx].name == name ==> Sent(ch, idx) in s.log)
    && (s.loop.Posting? && s.loop.idx >= from && s.posts[s.loop.idx].name == name ==>
         ch in s.handlers[s.loop.handler].chans[s.loop.next..] || Sent(ch, s.loop.idx) in s.log)
  }

  lemma CaughtSend(s: State, ready: bool, name: string, ch: Chan, from: nat)
    requires Caught(s, name, ch, from) && Enabled(s, SendNext(ready)) && Kind(s, SendNext(ready), name, ch)
    requires WellFormed(s) && Inv(Next(s, SendNext(ready)))
    ensures Caught(Next(s, SendNext(ready)), name, ch, from)
  {
    hide Inv;
    var s' := Next(s, SendNext(ready));
    var chans := s.handlers[s.loop.handler].chans;
    if s.loop.next < |chans| {
      assert chans[s.loop.next..] == [chans[s.loop.next]] + chans[s.loop.next + 1..];
      assert ready ==> s'.log[|s.log|] == Sent(chans[s.loop.next], s.loop.idx);
    }
    assert forall x :: x in s.log ==> x in s'.log;
    InvDone(s);
  }

  lemma InvDone(s: State)
    requires Inv(s)
    ensures s.loop.Taken? || s.loop.Posting? ==> Done(s) == s.loop.idx
  {
  }

  lemma CaughtSubscribe(s: State, step: Step, name: string, ch: Chan, from: nat)
    requires step.Subscribe? || step.Unsubscribe?
    requires Caught(s, name, ch, from) && Enabled(s, step) && Kind(s, step, name, ch) && Inv(Next(s, step))
    ensures Caught(Next(s, step), name, ch, from)
  {
    hide Evolves;
    HandlersNext(s, step);
  }

  lemma CaughtNext(s: State, step: Step, name: string, ch: Chan, from: nat)
    requires Caught(s, name, ch, from) && Enabled(s, step) && Kind(s, step, name, ch)
    ensures Caught(Next(s, step), name, ch, from)
  {
    InvNext(s, step);
    if step.SendNext? {
      CaughtSend(s, step.ready, name, ch, from);
    } else if step.Subscribe? || step.Unsubscribe? {
      CaughtSubscribe(s, step, name, ch, from);
    }
  }

  /** While it stays subscribed and ready, a channel misses no event posted under its name. */
  lemma {:induction false} NoLoss(s: State, steps: seq<Step>, name: string, ch: Chan, from: nat)
    requires IsRun(s, steps) && KindRun(s, steps, name, ch) && Caught(s, name, ch, from)
    ensures Caught(After(s, steps), name, ch, from)
    decreases |steps|
  {
    if steps != [] {
      CaughtNext(s, steps[0], name, ch, from);
      NoLoss(Next(s, steps[0]), steps[1..], name, ch, from);
    }
  }

  /** From any moment between events on, every event of the name that gets dispatched is sent to the channel. */
  lemma ListenerMissesNothing(s: State, steps: seq<Step>, name: string, ch: Chan)
    requires Inv(s) && Listening(s, name, ch) && !s.loop.Posting?
    requires IsRun(s, steps) && KindRun(s, steps, name, ch)
    ensures var s' := After(s, steps);
      forall idx :: Done(s) <= idx < Done(s') && s'.posts[idx].name == name ==> Sent(ch, idx) in s'.log
  {
    NoLoss(s, steps, name, ch, Done(s));
  }

  /** Two subscriptions in force send the channel an event twice. */
  lemma SubscribedTwice(s: State, ch: Chan)
    requires Inv(s) && s.loop.Posting? && s.loop.next == 0
    requires s.handlers[s.loop.handler].chans == [ch, ch]
    ensures var t := Next(Next(s, SendNext(true)), SendNext(true));
      Received(t.log, ch) == Received(s.log, ch) + [s.loop.idx, s.loop.idx]
  {
    var s1 := Next(s, SendNext(true));
    var s2 := Next(s1, SendNext(true));
    assert s1.log[..|s.log|] == s.log && s2.log[..|s1.log|] == s1.log;
  }

  // ---------------------------------------------------------- one event all the way

  /** What one step changes of what has been accepted: a post while running, and nothing else. */
  lemma PostsNext(s: State, step: Step)
    requires WellFormed(s) && Enabled(s, step)
    ensures Next(s, step).posts == if step.Post? && s.running then s.posts + [step.event] else s.posts
    ensures step.Post? && s.running ==> Next(s, step).queue == s.queue + [step.event]
    ensures step.Post? && !s.running ==> Next(s, step) == s
    ensures step.Start? ==> Next(s, step).running
    ensures step.Stop? && s.running ==> Next(s, step).quits == s.quits + 1
  {
    hide Remove;
  }

  /** The sends to the channels from one on, in the order of their subscriptions. */
  function Sends(chans: seq<Chan>, from: nat, idx: nat): (r: seq<Sent>)
    requires from <= |chans|
    ensures |r| == |chans| - from && forall i :: 0 <= i < |r| ==> r[i] == Sent(chans[from + i], idx)
  {
    seq(|chans| - from, i requires 0 <= i < |chans| - from => Sent(chans[from + i], idx))
  }

  lemma {:induction false} SendsAll(s: State, n: nat)
    requires WellFormed(s) && s.loop.Posting? && n == |s.handlers[s.loop.handler].chans| - s.loop.next
    ensures var steps := seq(n + 1, _ => SendNext(true));
      && IsRun(s, steps)
      && After(s, steps) == s.(loop := Select, log := s.log + Sends(s.handlers[s.loop.handler].chans, s.loop.next, s.loop.idx))
    decreases n
  {
    var chans, idx, next := s.handlers[s.loop.handler].chans, s.loop.idx, s.loop.next;
    var steps := seq(n + 1, _ => SendNext(true));
    var s' := Next(s, SendNext(true));
    var rest := seq(n, _ => SendNext(true));
    assert steps[0] == SendNext(true) && steps[1..] == rest;
    if n == 0 {
      assert rest == [] && s.log + Sends(chans, next, idx) == s.log;
      assert IsRun(s', rest) && After(s', rest) == s';
    } else {
      SendsAll(s', n - 1);
      assert s.log + [Sent(chans[next], idx)] + Sends(chans, next + 1, idx) == s.log + Sends(chans, next, idx);
    }
  }

  /** The dispatch loop with the new event in hand, at its handler if there is one. */
  function Dispatching(s: State, event: Event): State {
    s.(posts := s.posts + [event], loop := if event.name in s.table then Posting(|s.posts|, s.table[event.name], 0) else Select)
  }

  lemma Takes(s: State, event: Event)
    requires Inv(s) && s.running && s.loop.Select? && s.queue == []
    ensures WellFormed(Dispatching(s, event))
    ensures Enabled(s, Post(event))
    ensures var s1 := Next(s, Post(event)); Enabled(s1, TakeEvent)
    ensures var s2 := Next(Next(s, Post(event)), TakeEvent); Enabled(s2, FindHandler) && Next(s2, FindHandler) == Dispatching(s, event)
  {
    hide SentOk, Subscribed, Ordered;
    var s1 := Next(s, Post(event));
    assert s1.queue == [event] && s1.queue[1..] == s.queue && s1.posts[|s.posts|] == event;
  }

  lemma ThreeSteps(s: State, event: Event, rest: seq<Step>)
    requires Inv(s) && s.running && s.loop.Select? && s.queue == [] && IsRun(Dispatching(s, event), rest)
    ensures var steps := [Post(event), TakeEvent, FindHandler] + rest;
      IsRun(s, steps) && After(s, steps) == After(Dispatching(s, event), rest)
  {
    hide Next, Enabled, Dispatching;
    Takes(s, event);
    var steps := [Post(event), TakeEvent, FindHandler] + rest;
    var a, b := steps[1..], steps[2..];
    assert a[0] == TakeEvent && a[1..] == b && b[0] == FindHandler && b[1..] == rest;
    var s1 := Next(s, Post(event));
    var s2 := Next(s1, TakeEvent);
    assert IsRun(s2, b) && After(s2, b) == After(Dispatching(s, event), rest);
    assert IsRun(s1, a) && After(s1, a) == After(s2, b);
  }

  /**
   * An event posted while the loop waits with nothing queued: it is taken, its handler is found, and it is sent to every
   * channel subscribed to its name, once for each subscription and in their order; then the loop waits again.
   */
  lemma PostIsSent(s: State, event: Event)
    requires Inv(s) && s.running && s.loop.Select? && s.queue == [] && event.name in s.table
    ensures var chans := s.handlers[s.table[event.name]].chans;
      var steps := [Post(event), TakeEvent, FindHandler] + seq(|chans| + 1, _ => SendNext(true));
      && IsRun(s, steps)
      && After(s, steps) == s.(posts := s.posts + [event], log := s.log + Sends(chans, 0, |s.posts|))
  {
    hide Sends, Next, Enabled, SentOk, Subscribed, Ordered, IsRun, After;
    var chans := s.handlers[s.table[event.name]].chans;
    Takes(s, event);
    SendsAll(Dispatching(s, event), |chans|);
    ThreeSteps(s, event, seq(|chans| + 1, _ => SendNext(true)));
  }

  /** An event under a name that nobody subscribed to is taken and dropped. */
  lemma PostUnheard(s: State, event: Event)
    requires Inv(s) && s.running && s.loop.Select? && s.queue == [] && event.name !in s.table
    ensures var steps := [Post(event), TakeEvent, FindHandler];
      IsRun(s, steps) && After(s, steps) == s.(posts := s.posts + [event])
  {
    hide Next, Enabled, SentOk, Subscribed, Ordered;
    Takes(s, event);
    assert IsRun(Dispatching(s, event), []);
    ThreeSteps(s, event, []);
    assert [Post(event), TakeEvent, FindHandler] + [] == [Post(event), TakeEvent, FindHandler];
  }

  /** Subscribe adds one entry at the end of its name's list; Unsubscribe changes that list as Remove does. */
  lemma SubscribesOne(s: State, name: string, ch: Chan)
    requires WellFormed(s)
    ensures Enabled(s, Subscribe(name, ch)) ==>
      var s' := Next(s, Subscribe(name, ch));
      && name in s'.table
      && s'.handlers[s'.table[name]].chans == (if name in s.table then s.handlers[s.table[name]].chans else []) + [ch]
    ensures Enabled(s, Unsubscribe(name, ch)) && name in s.table ==>
      var s', r := Next(s, Unsubscribe(name, ch)), Remove(s.handlers[s.table[name]].chans, ch);
      if r.Chans() == [] && !r.panicked then name !in s'.table
      else name in s'.table && s'.handlers[s'.table[name]].chans == r.Chans()
  {
    hide Remove;
  }

  /** Ten events can wait; another post waits while the reactor runs, and is dropped at once when it does not. */
  lemma PostBlocks(s: State, event: Event)
    ensures Enabled(s, Post(event)) <==> !s.running || |s.queue| < 10
  {
  }

  /** Stop ends the waiting loop, and leaves the queue for the next Start. */
  lemma StopEnds(s: State)
    requires Inv(s) && s.running && s.loop.Select? && s.quits == 0
    ensures var steps := [Stop, TakeQuit, FinishQuit];
      IsRun(s, steps) && After(s, steps) == s.(running := false, loop := Off)
  {
    hide SentOk, Subscribed, Ordered, Remove;
    var steps := [Stop, TakeQuit, FinishQuit];
    var s1 := Next(s, Stop);
    var s2 := Next(s1, TakeQuit);
    var s3 := Next(s2, FinishQuit);
    assert steps[1..][0] == TakeQuit && steps[1..][1..][0] == FinishQuit && steps[1..][1..][1..] == [];
    assert IsRun(s3, []) && After(s3, []) == s3;
    assert IsRun(s2, steps[1..][1..]) && After(s2, steps[1..][1..]) == s3;
    assert IsRun(s1, steps[1..]) && After(s1, steps[1..]) == s3;
  }
}
