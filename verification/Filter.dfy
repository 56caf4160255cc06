/** The message index of ethchain/bloom.go and the search that uses it, ethchain/filter.go. */
module Filter {
  import opened Bytes
  import opened Options

  datatype Message = Message(to: Bytes, from: Bytes, input: Bytes, value: int, changed: seq<Bytes>)

  // ------------------------------------------------------------------- bloom

  /** The cells of an address: its last eight bytes; a shorter address has none. */
  function Cells(addr: Bytes): Bytes {
    if |addr| < 8 then [] else addr[|addr| - 8..]
  }

  function Marked(bin: Bytes, cells: Bytes): (r: Bytes)
    ensures |r| == |bin|
  {
    seq(|bin|, i requires 0 <= i < |bin| => if i in cells then 1 else bin[i])
  }

  /** What Search answers: it stops at the first empty cell, and panics at a cell outside the bin. */
  datatype Answer = Yes | No | Panic

  function SearchCells(bin: Bytes, cells: Bytes): Answer {
    if cells == [] then Yes
    else if cells[0] >= |bin| then Panic
    else if bin[cells[0]] == 0 then No
    else SearchCells(bin, cells[1..])
  }

  function Searched(bin: Bytes, addr: Bytes): Answer {
    if |addr| < 8 then No else SearchCells(bin, Cells(addr))
  }

  class BloomFilter {
    const bin: array<byte>

    constructor (stored: Bytes)
      ensures bin[..] == stored && fresh(bin)
    {
      bin := new byte[|stored|](i requires 0 <= i < |stored| => stored[i]);
    }

    method Set(addr: Bytes)
      requires bin.Length == 256
      modifies bin
      ensures bin[..] == Marked(old(bin[..]), Cells(addr))
    {
      if |addr| < 8 { return; }
      var cells := addr[|addr| - 8..];
      for k := 0 to 8
        invariant bin[..] == Marked(old(bin[..]), cells[..k])
      {
        bin[cells[k]] := 1;
        assert cells[..k + 1] == cells[..k] + [cells[k]];
      }
      assert cells[..8] == cells;
    }

    method Search(addr: Bytes) returns (r: Answer)
      ensures r == Searched(bin[..], addr)
    {
      if |addr| < 8 { return No; }
      var cells := addr[|addr| - 8..];
      for k := 0 to 8
        invariant SearchCells(bin[..], cells[k..]) == Searched(bin[..], addr)
      {
        if cells[k] >= bin.Length { return Panic; }
        if bin[cells[k]] == 0 { return No; }
        assert cells[k..][1..] == cells[k + 1..];
      }
      return Yes;
    }
  }

  /** The bin of a block's messages, as createBloomFilter fills it. */
  function BinOf(msgs: seq<Message>): (r: Bytes)
    ensures |r| == 256
  {
    if msgs == [] then Zeros(256)
    else
      var m := msgs[|msgs| - 1];
      Marked(Marked(BinOf(msgs[..|msgs| - 1]), Cells(m.to)), Cells(m.from))
  }

  method CreateBloomFilter(msgs: seq<Message>) returns (bloom: BloomFilter)
    ensures fresh(bloom) && bloom.bin[..] == BinOf(msgs)
  {
    bloom := new BloomFilter(Zeros(256));
    assert bloom.bin.Length == |bloom.bin[..]|;
    for i := 0 to |msgs|
      invariant fresh(bloom) && fresh(bloom.bin) && bloom.bin.Length == 256
      invariant bloom.bin[..] == BinOf(msgs[..i])
    {
      bloom.Set(msgs[i].to);
      bloom.Set(msgs[i].from);
      assert msgs[..i + 1][..i] == msgs[..i];
    }
    assert msgs[..|msgs|] == msgs;
  }

  /** A cell is full exactly when a message of the block put it there. */
  lemma {:induction false} BinOfExact(msgs: seq<Message>, c: byte)
    ensures BinOf(msgs)[c] != 0 <==> exists m :: m in msgs && (c in Cells(m.to) || c in Cells(m.from))
  {
    if msgs != [] {
      var init, m := msgs[..|msgs| - 1], msgs[|msgs| - 1];
      BinOfExact(init, c);
      assert msgs == init + [m];
    }
  }

  ghost predicate Full(bin: Bytes, cells: Bytes) {
    forall k :: 0 <= k < |cells| ==> cells[k] < |bin| && bin[cells[k]] != 0
  }

  /** A bin that every message of the block has been entered into. */
  ghost predicate Indexes(bin: Bytes, msgs: seq<Message>) {
    forall m :: m in msgs ==> Full(bin, Cells(m.to)) && Full(bin, Cells(m.from))
  }

  lemma BinOfIndexes(msgs: seq<Message>)
    ensures Indexes(BinOf(msgs), msgs)
  {
    var bin := BinOf(msgs);
    forall m, k | m in msgs && 0 <= k < |Cells(m.to)| ensures bin[Cells(m.to)[k]] != 0 {
      BinOfExact(msgs, Cells(m.to)[k]);
    }
    forall m, k | m in msgs && 0 <= k < |Cells(m.from)| ensures bin[Cells(m.from)[k]] != 0 {
      BinOfExact(msgs, Cells(m.from)[k]);
    }
  }

  lemma {:induction false} SearchCellsYes(bin: Bytes, cells: Bytes)
    requires Full(bin, cells)
    ensures SearchCells(bin, cells) == Yes
  {
    if cells != [] { SearchCellsYes(bin, cells[1..]); }
  }

  lemma {:induction false} SearchCellsTotal(bin: Bytes, cells: Bytes)
    requires |bin| >= 256
    ensures SearchCells(bin, cells) != Panic
  {
    if cells != [] { SearchCellsTotal(bin, cells[1..]); }
  }

  // ------------------------------------------------------------------ filter

  /** What a message must have changed: an empty part of the pair accepts anything. */
  datatype Altered = Altered(id: Bytes, address: Bytes)

  datatype Filter = Filter(earliest: Bytes, latest: Bytes, max: int, from: seq<Bytes>, to: seq<Bytes>, altered: seq<Altered>)

  /** A message passes when its ends are listed, where lists are given, and some altered item fits. */
  predicate Matches(f: Filter, m: Message) {
    && (f.to == [] || m.to in f.to)
    && (f.from == [] || m.from in f.from)
    && (f.altered == [] || exists a :: a in f.altered && Fits(a, m))
  }

  predicate Fits(a: Altered, m: Message) {
    (a.id == [] || m.to == a.id) && (a.address == [] || a.address in m.changed)
  }

  function Passing(f: Filter, msgs: seq<Message>): seq<Message> {
    if msgs == [] then []
    else Passing(f, msgs[..|msgs| - 1]) + (if Matches(f, msgs[|msgs| - 1]) then [msgs[|msgs| - 1]] else [])
  }

  method Includes(addresses: seq<Bytes>, a: Bytes) returns (found: bool)
    ensures found <==> a in addresses
  {
    for i := 0 to |addresses|
      invariant a !in addresses[..i]
    {
      if addresses[i] == a { return true; }
    }
    return false;
  }

  method FilterMessages(f: Filter, msgs: seq<Message>) returns (messages: seq<Message>)
    ensures messages == Passing(f, msgs)
  {
    messages := [];
    for i := 0 to |msgs|
      invariant messages == Passing(f, msgs[..i])
    {
      var message := msgs[i];
      assert msgs[..i + 1][..i] == msgs[..i];
      var to := Includes(f.to, message.to);
      if |f.to| > 0 && !to { continue; }
      var from := Includes(f.from, message.from);
      if |f.from| > 0 && !from { continue; }
      var match_ := AnyFits(f, message);
      if !match_ { continue; }
      messages := messages + [message];
    }
    assert msgs[..|msgs|] == msgs;
  }

  /** The inner loop of FilterMessages. */
  method AnyFits(f: Filter, message: Message) returns (match_: bool)
    ensures match_ <==> f.altered == [] || exists a :: a in f.altered && Fits(a, message)
  {
    match_ := |f.altered| == 0;
    for k := 0 to |f.altered|
      invariant match_ <==> f.altered == []
      invariant forall a :: a in f.altered[..k] ==> !Fits(a, message)
    {
      var item := f.altered[k];
      if |item.id| > 0 && message.to != item.id { continue; }
      var changed := Includes(message.changed, item.address);
      if |item.address| > 0 && !changed { continue; }
      assert item in f.altered && Fits(item, message);
      return true;
    }
    assert f.altered[..|f.altered|] == f.altered;
  }

  /** One of the two address loops of the bloom check. */
  function AnyHit(bin: Bytes, addrs: seq<Bytes>): Answer {
    if addrs == [] then No
    else
      var a := Searched(bin, addrs[0]);
      if a == No then AnyHit(bin, addrs[1..]) else a
  }

  function BloomCheck(f: Filter, bin: Bytes): Answer {
    var from := if f.from == [] then Yes else AnyHit(bin, f.from);
    var to := if f.to == [] then Yes else AnyHit(bin, f.to);
    if from == Panic || to == Panic then Panic
    else if from == Yes && to == Yes then Yes else No
  }

  method AnyFound(bloom: BloomFilter, addrs: seq<Bytes>) returns (r: Answer)
    ensures r == AnyHit(bloom.bin[..], addrs)
  {
    for i := 0 to |addrs|
      invariant AnyHit(bloom.bin[..], addrs[i..]) == AnyHit(bloom.bin[..], addrs)
    {
      assert addrs[i..][1..] == addrs[i + 1..];
      var found := bloom.Search(addrs[i]);
      if found != No { return found; }
    }
    return No;
  }

  method RunBloomFilter(f: Filter, bin: Bytes) returns (r: Answer)
    ensures r == BloomCheck(f, bin)
  {
    var bloom := new BloomFilter(bin);
    var fromIncluded, toIncluded := Yes, Yes;
    if |f.from| > 0 { fromIncluded := AnyFound(bloom, f.from); }
    if fromIncluded == Panic { return Panic; }
    if |f.to| > 0 { toIncluded := AnyFound(bloom, f.to); }
    if toIncluded == Panic { return Panic; }
    return if fromIncluded == Yes && toIncluded == Yes then Yes else No;
  }

  // -------------------------------------------------------------- the search

  datatype Block = Block(hash: Bytes, prevHash: Bytes, number: nat)

  /** The blocks by hash, the bins stored for them, and the messages their transactions give. */
  datatype Chain = Chain(blocks: map<Bytes, Block>, bins: map<Bytes, Bytes>, messages: map<Bytes, seq<Message>>) {

    function GetBlock(hash: Bytes): Option<Block> {
      if hash in blocks then Some(blocks[hash]) else None
    }

    /** Blocks are stored under their own hash and count up from their parents; each has its messages. */
    ghost predicate Valid() {
      forall h :: h in blocks ==>
        && blocks[h].hash == h
        && h in messages
        && (blocks[h].prevHash in blocks ==> blocks[blocks[h].prevHash].number < blocks[h].number)
    }

    /** Every block has a bin, and that bin holds the block's messages. */
    ghost predicate Indexed()
      requires Valid()
    {
      forall h :: h in blocks ==> h in bins && Indexes(bins[h], Known(h))
    }

    /** The messages a search can get: none for a block whose parent is unknown, such as genesis. */
    ghost function Known(h: Bytes): seq<Message>
      requires Valid() && h in blocks
    {
      if blocks[h].prevHash in blocks then messages[h] else []
    }
  }

  predicate Last(f: Filter, b: Block, i: int) {
    f.max == i || (|f.earliest| > 0 && b.hash == f.earliest)
  }

  /** The search without an index: every block is opened. */
  ghost function Scan(f: Filter, c: Chain, at: Option<Block>, i: nat): seq<Message>
    requires c.Valid() && (at.Some? ==> at.value in c.blocks.Values)
    decreases if at.Some? then at.value.number + 1 else 0
  {
    if at.None? then []
    else
      var b := at.value;
      if b.prevHash !in c.blocks then []
      else
        Passing(f, c.messages[b.hash])
        + (if Last(f, b, i) then [] else Scan(f, c, c.GetBlock(b.prevHash), i + 1))
  }

  lemma ScanStep(f: Filter, c: Chain, b: Block, i: nat)
    requires c.Valid() && b in c.blocks.Values
    ensures b.prevHash !in c.blocks ==> Scan(f, c, Some(b), i) == []
    ensures b.prevHash in c.blocks ==>
      Scan(f, c, Some(b), i)
      == Passing(f, c.messages[b.hash]) + (if Last(f, b, i) then [] else Scan(f, c, c.GetBlock(b.prevHash), i + 1))
  {
    hide Passing;
  }

  lemma ScanNone(f: Filter, c: Chain)
    requires c.Valid()
    ensures forall i: nat :: Scan(f, c, None, i) == []
  {
  }

  /** Filter.Find. The loop that should skip blocks tests `i < i` and never runs, so there is none here. */
  method Find(f: Filter, c: Chain) returns (messages: seq<Message>, panicked: bool)
    requires c.Valid()
    ensures c.Indexed() && LongAddresses(f) && !panicked ==> messages == Scan(f, c, c.GetBlock(f.latest), 1)
    ensures panicked ==> exists h :: h in c.blocks && (h !in c.bins || |c.bins[h]| < 256)
  {
    hide Indexes, BloomCheck, Passing, Scan, LongAddresses;
    messages, panicked := [], false;
    var at := c.GetBlock(f.latest);
    var quit := false;
    var i := 1;
    ScanNone(f, c);
    while !quit && at.Some?
      invariant i >= 1 && (at.Some? ==> at.value in c.blocks.Values)
      invariant c.Indexed() && LongAddresses(f) ==>
        Scan(f, c, c.GetBlock(f.latest), 1) == messages + (if quit then [] else Scan(f, c, at, i))
      decreases if at.Some? then at.value.number + 1 else 0
    {
      var block := at.value;
      ScanStep(f, c, block, i);
      if Last(f, block, i) { quit := true; }
      var found, next := Visit(f, c, block);
      if next == Panic { return messages, true; }
      if next == No { return; }
      messages := messages + found;
      at := c.GetBlock(block.prevHash);
      i := i + 1;
    }
  }

  /** One turn of the loop in Find: what it adds, and whether it goes on, breaks off or panics. */
  method Visit(f: Filter, c: Chain, block: Block) returns (found: seq<Message>, next: Answer)
    requires c.Valid() && block in c.blocks.Values
    ensures next == Panic ==> block.hash !in c.bins || |c.bins[block.hash]| < 256
    ensures next == No ==> block.prevHash !in c.blocks
    ensures c.Indexed() && LongAddresses(f) && next == Yes ==>
      found == if block.prevHash in c.blocks then Passing(f, c.messages[block.hash]) else []
  {
    hide Indexes, BloomCheck, LongAddresses;
    found := [];
    if block.hash !in c.bins { return [], Panic; }
    var interesting := RunBloomFilter(f, c.bins[block.hash]);
    BloomTotal(f, c.bins[block.hash]);
    if interesting == Panic { return [], Panic; }
    if interesting == Yes {
      if block.prevHash !in c.blocks { return [], No; }
      found := FilterMessages(f, c.messages[block.hash]);
    } else if c.Indexed() && LongAddresses(f) {
      NegativeMeansNone(f, c.bins[block.hash], c.Known(block.hash));
    }
    next := Yes;
  }

  /** The index looks only at addresses of eight bytes or more. */
  ghost predicate LongAddresses(f: Filter) {
    forall a :: a in f.from || a in f.to ==> |a| >= 8
  }

  lemma {:induction false} AnyHitYes(bin: Bytes, addrs: seq<Bytes>, a: Bytes)
    requires a in addrs && Searched(bin, a) == Yes
    ensures AnyHit(bin, addrs) != No
  {
    if addrs[0] != a { AnyHitYes(bin, addrs[1..], a); }
  }

  /** A block the index turns away has no message the filter would pass. */
  lemma NegativeMeansNone(f: Filter, bin: Bytes, msgs: seq<Message>)
    requires LongAddresses(f) && Indexes(bin, msgs) && BloomCheck(f, bin) == No
    ensures Passing(f, msgs) == []
  {
    hide Cells, SearchCells, AnyHit, Full;
    if Passing(f, msgs) != [] {
      var m := PassingMatch(f, msgs);
      if f.to != [] {
        SearchCellsYes(bin, Cells(m.to));
        AnyHitYes(bin, f.to, m.to);
      }
      if f.from != [] {
        SearchCellsYes(bin, Cells(m.from));
        AnyHitYes(bin, f.from, m.from);
      }
    }
  }

  lemma {:induction false} PassingMatch(f: Filter, msgs: seq<Message>) returns (m: Message)
    requires Passing(f, msgs) != []
    ensures m in msgs && Matches(f, m)
  {
    m := msgs[|msgs| - 1];
    if !Matches(f, m) { m := PassingMatch(f, msgs[..|msgs| - 1]); }
  }

  lemma {:induction false} AnyHitTotal(bin: Bytes, addrs: seq<Bytes>)
    requires |bin| >= 256
    ensures AnyHit(bin, addrs) != Panic
  {
    if addrs != [] {
      SearchCellsTotal(bin, Cells(addrs[0]));
      AnyHitTotal(bin, addrs[1..]);
    }
  }

  lemma BloomTotal(f: Filter, bin: Bytes)
    ensures |bin| >= 256 ==> BloomCheck(f, bin) != Panic
  {
    if |bin| >= 256 {
      AnyHitTotal(bin, f.from);
      AnyHitTotal(bin, f.to);
    }
  }

  /** A list of short addresses is never found in any index, so such a filter passes no block. */
  lemma {:induction false} ShortNeverFound(bin: Bytes, addrs: seq<Bytes>)
    requires forall a :: a in addrs ==> |a| < 8
    ensures AnyHit(bin, addrs) == No
  {
    if addrs != [] { ShortNeverFound(bin, addrs[1..]); }
  }

  /** The condition on lengths is needed: the scan finds a message to a short address, the index hides it. */
  lemma ShortAddressLost(f: Filter, m: Message)
    requires f.to == [m.to] && f.from == [] && f.altered == [] && |m.to| < 8
    ensures BloomCheck(f, BinOf([m])) == No && Passing(f, [m]) == [m]
  {
    ShortNeverFound(BinOf([m]), f.to);
    assert [m][..0] == [];
  }

  // ------------------------------------------------- what passes, message by message

  /**
   * A message passes exactly if it is among the block's, its ends are listed where lists are given, and, where alterations
   * are given, one of them names its recipient or nothing, and an address it changed or nothing.
   */
  lemma {:induction false} PassingExactly(f: Filter, msgs: seq<Message>, m: Message)
    ensures m in Passing(f, msgs) <==>
      && m in msgs
      && (f.to == [] || m.to in f.to)
      && (f.from == [] || m.from in f.from)
      && (f.altered == [] || exists a :: a in f.altered && (a.id == [] || a.id == m.to) && (a.address == [] || a.address in m.changed))
  {
    if msgs != [] {
      var init, last := msgs[..|msgs| - 1], msgs[|msgs| - 1];
      assert msgs == init + [last];
      PassingExactly(f, init, m);
      MatchesIs(f, last);
    }
  }

  lemma MatchesIs(f: Filter, m: Message)
    ensures Matches(f, m) <==>
      && (f.to == [] || m.to in f.to)
      && (f.from == [] || m.from in f.from)
      && (f.altered == [] || exists a :: a in f.altered && (a.id == [] || a.id == m.to) && (a.address == [] || a.address in m.changed))
  {
    forall a ensures Fits(a, m) <==> (a.id == [] || a.id == m.to) && (a.address == [] || a.address in m.changed) {}
  }

  /** The messages that pass stay in order: those of one part come before those of the next. */
  lemma {:induction false} PassingInOrder(f: Filter, a: seq<Message>, b: seq<Message>)
    ensures Passing(f, a + b) == Passing(f, a) + Passing(f, b)
  {
    if b == [] {
      assert a + b == a && Passing(f, a) + [] == Passing(f, a);
    } else {
      var init, last := b[..|b| - 1], b[|b| - 1];
      assert (a + b)[..|a + b| - 1] == a + init && (a + b)[|a + b| - 1] == last;
      PassingInOrder(f, a, init);
      var tail := if Matches(f, last) then [last] else [];
      assert Passing(f, a + b) == Passing(f, a + init) + tail;
      assert Passing(f, a) + Passing(f, init) + tail == Passing(f, a) + (Passing(f, init) + tail);
    }
  }

  /** An address has a cell for each of its last eight bytes, if it has so many. */
  lemma CellsExactly(addr: Bytes, c: byte)
    ensures c in Cells(addr) <==> |addr| >= 8 && exists i :: |addr| - 8 <= i < |addr| && addr[i] == c
  {
    if |addr| >= 8 {
      var cells := addr[|addr| - 8..];
      if i :| |addr| - 8 <= i < |addr| && addr[i] == c { assert cells[i - (|addr| - 8)] == c; }
      if c in cells {
        var k :| 0 <= k < 8 && cells[k] == c;
        assert addr[|addr| - 8 + k] == c;
      }
    }
  }

  /** The blocks from one on towards genesis, without those whose parent is unknown, and at most n. */
  ghost function Ancestors(c: Chain, at: Option<Block>, n: nat): seq<Block>
    requires c.Valid() && (at.Some? ==> at.value in c.blocks.Values)
    decreases n
  {
    if n == 0 || at.None? || at.value.prevHash !in c.blocks then []
    else [at.value] + Ancestors(c, c.GetBlock(at.value.prevHash), n - 1)
  }

  ghost function PassingIn(f: Filter, c: Chain, blocks: seq<Block>): seq<Message>
    requires c.Valid() && forall b :: b in blocks ==> b in c.blocks.Values
  {
    if blocks == [] then []
    else
      assert blocks[0] in blocks;
      Passing(f, c.messages[blocks[0].hash]) + PassingIn(f, c, blocks[1..])
  }

  lemma {:induction false} AncestorsKnown(c: Chain, at: Option<Block>, n: nat)
    requires c.Valid() && (at.Some? ==> at.value in c.blocks.Values)
    ensures forall b :: b in Ancestors(c, at, n) ==> b in c.blocks.Values
    decreases n
  {
    if n > 0 && at.Some? && at.value.prevHash in c.blocks { AncestorsKnown(c, c.GetBlock(at.value.prevHash), n - 1); }
  }

  /** The search covers at most `max` blocks, from the latest towards genesis, and one is always covered. */
  lemma {:induction false} ScanIsMax(f: Filter, c: Chain, at: Option<Block>, i: nat)
    requires c.Valid() && (at.Some? ==> at.value in c.blocks.Values)
    requires f.earliest == [] && 1 <= i <= f.max
    ensures (forall b :: b in Ancestors(c, at, f.max - i + 1) ==> b in c.blocks.Values)
      && Scan(f, c, at, i) == PassingIn(f, c, Ancestors(c, at, f.max - i + 1))
    decreases f.max - i
  {
    hide Passing;
    var n := f.max - i + 1;
    AncestorsKnown(c, at, n);
    if at.Some? {
      ScanStep(f, c, at.value, i);
      if at.value.prevHash in c.blocks {
        var b, next := at.value, c.GetBlock(at.value.prevHash);
        var rest := Ancestors(c, next, n - 1);
        assert Ancestors(c, at, n) == [b] + rest && ([b] + rest)[1..] == rest;
        if i < f.max {
          ScanIsMax(f, c, next, i + 1);
        } else {
          assert rest == [] && PassingIn(f, c, []) == [];
        }
      }
    }
  }

  /** With an earliest block, it is the last one covered. */
  lemma ScanStopsAtEarliest(f: Filter, c: Chain, b: Block, i: nat)
    requires c.Valid() && b in c.blocks.Values && f.earliest != [] && b.hash == f.earliest
    ensures Scan(f, c, Some(b), i) == if b.prevHash in c.blocks then Passing(f, c.messages[b.hash]) else []
  {
    hide Passing;
    ScanStep(f, c, b, i);
  }

  // ------------------------------------------- when the index and the scan agree

  /** The cells hit one of the addresses. */
  ghost predicate Hits(addrs: seq<Bytes>, cells: Bytes) {
    exists a :: a in addrs && |a| >= 8 && forall c :: c in Cells(a) ==> c in cells
  }

  /** The ends that a message can have, as far as the cells are concerned: an end not asked for may have none. */
  function Ends(addrs: seq<Bytes>): seq<Bytes> {
    if addrs == [] then [[]] else addrs
  }

  /** Whatever listed ends a message has, their cells hit a listed address on both sides. */
  ghost predicate Visible(f: Filter) {
    forall a, b :: a in Ends(f.to) && b in Ends(f.from) ==>
      (f.to == [] || Hits(f.to, Cells(a) + Cells(b))) && (f.from == [] || Hits(f.from, Cells(a) + Cells(b)))
  }

  lemma {:induction false} SearchCellsExact(bin: Bytes, cells: Bytes)
    requires |bin| == 256
    ensures SearchCells(bin, cells) == if forall c :: c in cells ==> bin[c] != 0 then Yes else No
  {
    if cells != [] { SearchCellsExact(bin, cells[1..]); }
  }

  lemma {:induction false} AnyHitExact(bin: Bytes, addrs: seq<Bytes>, cells: Bytes)
    requires |bin| == 256 && forall c: byte :: bin[c] != 0 <==> c in cells
    ensures AnyHit(bin, addrs) == if Hits(addrs, cells) then Yes else No
  {
    hide Cells, SearchCells;
    if addrs != [] {
      SearchCellsExact(bin, Cells(addrs[0]));
      AnyHitExact(bin, addrs[1..], cells);
      assert Hits(addrs, cells) <==> Searched(bin, addrs[0]) == Yes || Hits(addrs[1..], cells);
    }
  }

  /** The cells that are full in a bin, as a list. */
  function AllCells(msgs: seq<Message>): Bytes {
    if msgs == [] then []
    else var m := msgs[|msgs| - 1]; AllCells(msgs[..|msgs| - 1]) + (Cells(m.to) + Cells(m.from))
  }

  lemma {:induction false} BinCells(msgs: seq<Message>)
    ensures forall c: byte :: BinOf(msgs)[c] != 0 <==> c in AllCells(msgs)
  {
    if msgs != [] { BinCells(msgs[..|msgs| - 1]); }
  }

  lemma {:induction false} CellsIn(msgs: seq<Message>, m: Message)
    requires m in msgs
    ensures forall c :: c in Cells(m.to) + Cells(m.from) ==> c in AllCells(msgs)
  {
    if msgs[|msgs| - 1] != m { CellsIn(msgs[..|msgs| - 1], m); }
  }

  lemma CheckExact(f: Filter, msgs: seq<Message>)
    ensures BloomCheck(f, BinOf(msgs)) ==
      if (f.to == [] || Hits(f.to, AllCells(msgs))) && (f.from == [] || Hits(f.from, AllCells(msgs))) then Yes else No
  {
    hide Hits, AllCells;
    BinCells(msgs);
    AnyHitExact(BinOf(msgs), f.to, AllCells(msgs));
    AnyHitExact(BinOf(msgs), f.from, AllCells(msgs));
  }

  lemma HitsMore(addrs: seq<Bytes>, cells: Bytes, more: Bytes)
    requires Hits(addrs, cells) && forall c :: c in cells ==> c in more
    ensures Hits(addrs, more)
  {
  }

  /**
   * For a filter on ends alone, the index hides no passing message of any block exactly when the listed ends are
   * visible; and if only one side is listed, exactly when its addresses are long.
   */
  lemma IndexExact(f: Filter)
    requires f.altered == []
    ensures (forall msgs :: BloomCheck(f, BinOf(msgs)) == No ==> Passing(f, msgs) == []) <==> Visible(f)
    ensures f.from == [] || f.to == [] ==> (Visible(f) <==> LongAddresses(f))
  {
    hide BloomCheck, BinOf, Hits, Cells, Passing, LongAddresses;
    if Visible(f) {
      forall msgs | BloomCheck(f, BinOf(msgs)) == No ensures Passing(f, msgs) == [] {
        if Passing(f, msgs) != [] {
          var m := PassingMatch(f, msgs);
          VisibleMessage(f, msgs, m);
          assert false;
        }
      }
    } else {
      var a, b :| a in Ends(f.to) && b in Ends(f.from)
        && !((f.to == [] || Hits(f.to, Cells(a) + Cells(b))) && (f.from == [] || Hits(f.from, Cells(a) + Cells(b))));
      HiddenMessage(f, Message(a, b, [], 0, []));
    }
    if f.from == [] || f.to == [] { OneSide(f); }
  }

  lemma VisibleMessage(f: Filter, msgs: seq<Message>, m: Message)
    requires Visible(f) && m in msgs && Matches(f, m)
    ensures BloomCheck(f, BinOf(msgs)) == Yes
  {
    hide Hits, Cells, BloomCheck, AllCells;
    var a, b := if f.to == [] then [] else m.to, if f.from == [] then [] else m.from;
    assert a in Ends(f.to) && b in Ends(f.from);
    NoCells();
    CellsIn(msgs, m);
    CheckExact(f, msgs);
    if f.to != [] { HitsMore(f.to, Cells(a) + Cells(b), AllCells(msgs)); }
    if f.from != [] { HitsMore(f.from, Cells(a) + Cells(b), AllCells(msgs)); }
  }

  lemma NoCells()
    ensures Cells([]) == []
  {
  }

  lemma HiddenMessage(f: Filter, m: Message)
    requires f.altered == [] && m.to in Ends(f.to) && m.from in Ends(f.from)
    requires var cells := Cells(m.to) + Cells(m.from); !((f.to == [] || Hits(f.to, cells)) && (f.from == [] || Hits(f.from, cells)))
    ensures BloomCheck(f, BinOf([m])) == No && Passing(f, [m]) != []
  {
    hide Hits, Cells, BloomCheck;
    CheckExact(f, [m]);
    assert [m][..0] == [] && AllCells([]) == [];
    assert AllCells([m]) == Cells(m.to) + Cells(m.from);
  }

  /** With one side listed, a message to a listed address of 8 bytes or more is seen, and one to a shorter is not. */
  lemma OneSide(f: Filter)
    requires f.from == [] || f.to == []
    ensures Visible(f) <==> LongAddresses(f)
  {
    NoCells();
    var addrs := f.to + f.from;
    forall x | x in addrs && |x| < 8 ensures !Visible(f) {
      ShortHitsNone(addrs, x);
      if f.to == [] {
        assert [] in Ends(f.to) && x in Ends(f.from);
        assert Cells([]) + Cells(x) == Cells(x) && addrs == f.from;
      } else {
        assert x in Ends(f.to) && [] in Ends(f.from);
        assert Cells(x) + Cells([]) == Cells(x) && addrs == f.to;
      }
    }
  }

  lemma ShortHitsNone(addrs: seq<Bytes>, x: Bytes)
    requires |x| < 8
    ensures !Hits(addrs, Cells(x))
  {
    forall a | a in addrs && |a| >= 8 ensures exists c :: c in Cells(a) && c !in Cells(x) {
      assert Cells(a)[0] in Cells(a);
    }
  }

  /** The bin stored for genesis is one cell short: an address with 255 in its eighth-last byte panics. */
  lemma GenesisBinPanics(f: Filter, a: Bytes)
    requires f.to == [a] && |a| >= 8 && a[|a| - 8] == 255
    ensures f.from == [] ==> BloomCheck(f, Zeros(255)) == Panic
  {
    assert Cells(a)[0] == 255;
  }
}
