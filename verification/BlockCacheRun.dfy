/**
  Runs of block cache operations refine a plain disk: an array of blocks, and for every buffer
  handle the block it stands for and the number of its holders.
 */
module BlockCacheRun {
  import opened Disk
  import opened BlockCache

  datatype Op =
    | Read(dev: nat, num: u32)
    | Modify(held: Index, data: BlockData)
    | Release(buf: nat)
    | Flush(buf: nat)
    | FlushRelease(buf: nat)

  datatype Step = Step(st: Cache, ret: int)

  /** bread(), a client's update, brelse(), bwrite2() and bwrite(). Pointers outside the pool are
      the indices from 32 on. */
  function Exec(st: Cache, op: Op): Step
  {
    match op
    case Read(dev, num) => var g := ReadIn(st, dev, num); Step(g.st, g.buf)
    case Modify(i, data) => Step(Modified(st, i, data), 0)
    case Release(i) => if i < 32 && st.bufs[i].count > 0 then Step(Released(st, i), 0) else Step(st, EINVAL)
    case Flush(i) => if i < 32 && st.bufs[i].count > 0 then Step(Flushed(st, i), 0) else Step(st, EINVAL)
    case FlushRelease(i) =>
      if i < 32 && st.bufs[i].count > 0 then Step(Released(Flushed(st, i), i), 0) else Step(st, EINVAL)
  }

  /** What is asked of callers: block numbers whose offset fits 32 bits, updates only by holders,
      and no search that never ends. */
  ghost predicate Fair(st: Cache, op: Op)
  {
    match op
    case Read(dev, num) => num < 0x40_0000 && (Lookup(st.bufs, dev, num, 0) < 32 || !Hangs(st.bufs, st.k))
    case Modify(i, _) => st.bufs[i].used
    case _ => true
  }

  // ----- the plain disk

  datatype Handle = Idle | On(num: u32, holders: nat)

  datatype Plain = Plain(blocks: seq<BlockData>, handles: seq<Handle>)

  function NumBlocks(disk: Image): nat
  {
    if |disk| / 1024 <= 0x40_0000 then |disk| / 1024 else 0x40_0000
  }

  lemma NumBlocksIff(disk: Image, n: nat)
    ensures n < NumBlocks(disk) <==> OnDisk(disk, n)
  {}

  function Blocks(st: Cache): (s: seq<BlockData>)
    ensures |s| == NumBlocks(st.disk)
    ensures forall n: nat | n < |s| :: OnDisk(st.disk, n) && s[n] == Logical(st, n)
  {
    seq(NumBlocks(st.disk), n requires 0 <= n < NumBlocks(st.disk) => NumBlocksIff(st.disk, n); Logical(st, n))
  }

  function HandleOf(b: Buffer): Handle { if b.count == 0 then Idle else On(b.num, b.count) }

  function Handles(bufs: Buffers): (s: seq<Handle>)
    ensures |s| == 32 && forall i: Index :: s[i] == HandleOf(bufs[i])
  {
    seq(32, i requires 0 <= i < 32 => HandleOf(bufs[i]))
  }

  function Abs(st: Cache): Plain { Plain(Blocks(st), Handles(st.bufs)) }

  predicate Busy(a: Plain, i: nat) { i < |a.handles| && a.handles[i].On? }

  function Dropped(a: Plain, i: nat): Plain
    requires Busy(a, i)
  {
    var h := a.handles[i];
    a.(handles := a.handles[i := if h.holders <= 1 then Idle else h.(holders := h.holders - 1)])
  }

  /** What an operation that returned `ret` does to the plain disk. */
  function Effect(a: Plain, op: Op, ret: int): Plain
  {
    match op
    case Read(dev, num) =>
      if 0 <= ret < |a.handles| then
        a.(handles := a.handles[ret := On(num, if Busy(a, ret) then a.handles[ret].holders + 1 else 1)])
      else a
    case Modify(i, data) =>
      if Busy(a, i) && a.handles[i].num < |a.blocks| then a.(blocks := a.blocks[a.handles[i].num := data]) else a
    case Flush(_) => a
    case Release(i) => if Busy(a, i) then Dropped(a, i) else a
    case FlushRelease(i) => if Busy(a, i) then Dropped(a, i) else a
  }

  ghost predicate AtMostOneIdle(a: Plain)
  {
    forall i: nat, j: nat | i < |a.handles| && j < |a.handles| && !Busy(a, i) && !Busy(a, j) :: i == j
  }

  ghost predicate NoneIdle(a: Plain) { forall i: nat | i < |a.handles| :: Busy(a, i) }

  /** Somebody holds the block. */
  ghost predicate InHand(a: Plain, num: u32) { exists i: nat :: Busy(a, i) && a.handles[i].num == num }

  /** Which results are right: bread() never hands out a buffer that stands for another block while
      it is held. It fails without the block; it never fails for a block in somebody's hands, nor with
      two idle buffers; otherwise it fails if no buffer is idle. */
  ghost predicate Correct(a: Plain, op: Op, ret: int)
  {
    match op
    case Read(dev, num) =>
      && -1 <= ret < |a.handles|
      && (ret >= 0 ==> dev == 0 && num < |a.blocks| && (Busy(a, ret) ==> a.handles[ret].num == num))
      && (ret < 0 ==> dev != 0 || num >= |a.blocks| || (AtMostOneIdle(a) && !InHand(a, num)))
      && (NoneIdle(a) && !InHand(a, num) ==> ret < 0)
    case Modify(_, _) => true
    case Release(i) => ret == if Busy(a, i) then 0 else EINVAL
    case Flush(i) => ret == if Busy(a, i) then 0 else EINVAL
    case FlushRelease(i) => ret == if Busy(a, i) then 0 else EINVAL
  }

  /** Every holder of a buffer sees the plain disk's block. */
  lemma HolderSees(st: Cache, i: Index)
    requires Coherent(st) && st.bufs[i].used
    ensures var a := Abs(st);
      Busy(a, i) && a.handles[i].num < |a.blocks| && st.bufs[i].data == a.blocks[a.handles[i].num]
  {
    assert BufferOk(st.disk, st.bufs[i]);
    NumBlocksIff(st.disk, st.bufs[i].num);
    assert Caches(st.bufs, i, 0, st.bufs[i].num);
    LookupIs(st.bufs, i, 0, st.bufs[i].num);
  }

  lemma SameBlocks(st: Cache, st': Cache)
    requires SameView(st, st')
    ensures Blocks(st') == Blocks(st)
  {
    forall n: nat | n < NumBlocks(st.disk) ensures Blocks(st')[n] == Blocks(st)[n] { NumBlocksIff(st.disk, n); }
  }

  /** When all buffers that the search looks at are held, only the one before its start can be idle. */
  lemma ProbedHeld(bufs: Buffers, k: Index, i: Index)
    requires (forall j: nat | j < Range(k) :: bufs[Probe(k, j)].used) && !bufs[i].used
    ensures k != 0 && i == k - 1
  {
    var j := if i >= k then i - k else i + 32 - k;
    assert Probe(k, j) == i;
  }

  lemma BusyIsUsed(st: Cache, i: Index)
    requires Coherent(st)
    ensures Busy(Abs(st), i) <==> st.bufs[i].used
    ensures Busy(Abs(st), i) ==> Abs(st).handles[i] == On(st.bufs[i].num, st.bufs[i].count)
    ensures st.bufs[i].used <==> st.bufs[i].count > 0
  {
    assert BufferOk(st.disk, st.bufs[i]);
  }

  lemma ReadStep(st: Cache, dev: nat, num: u32)
    requires Coherent(st) && Fair(st, Read(dev, num))
    ensures var s := Exec(st, Read(dev, num));
      Coherent(s.st) && Correct(Abs(st), Read(dev, num), s.ret) && Abs(s.st) == Effect(Abs(st), Read(dev, num), s.ret)
  {
    var s := Exec(st, Read(dev, num));
    ReadKeeps(st, dev, num);
    SameBlocks(st, s.st);
    ReadHandles(st, dev, num);
    ReadCorrect(st, dev, num);
    if s.ret >= 0 { BusyIsUsed(st, s.ret); }
  }

  lemma ReadHandles(st: Cache, dev: nat, num: u32)
    requires Coherent(st) && Fair(st, Read(dev, num))
    ensures var r := ReadIn(st, dev, num);
      && -1 <= r.buf < 32
      && Handles(r.st.bufs) == if r.buf >= 0 then Handles(st.bufs)[r.buf := On(num, st.bufs[r.buf].count + 1)] else Handles(st.bufs)
  {
    var r := ReadIn(st, dev, num);
    ReadKeeps(st, dev, num);
    forall i: Index ensures HandleOf(r.st.bufs[i]) ==
      if i == r.buf then On(num, st.bufs[i].count + 1) else HandleOf(st.bufs[i])
    {
      ReadHolders(st, dev, num, i);
      BusyIsUsed(st, i);
    }
  }

  lemma ReadCorrect(st: Cache, dev: nat, num: u32)
    requires Coherent(st) && Fair(st, Read(dev, num))
    ensures Correct(Abs(st), Read(dev, num), ReadIn(st, dev, num).buf)
  {
    var r := ReadIn(st, dev, num);
    ReadKeeps(st, dev, num);
    NumBlocksIff(st.disk, num);
    if r.buf >= 0 {
      ReadHolders(st, dev, num, r.buf);
      BusyIsUsed(st, r.buf);
      HandedOut(st, num, r.buf);
    } else if dev == 0 && num < NumBlocks(st.disk) {
      OneIdle(st);
      NotInHand(st, num);
    }
  }

  lemma OneIdle(st: Cache)
    requires Coherent(st) && forall j: nat | j < Range(st.k) :: st.bufs[Probe(st.k, j)].used
    ensures AtMostOneIdle(Abs(st))
  {
    var a := Abs(st);
    forall i: nat, j: nat | i < |a.handles| && j < |a.handles| && !Busy(a, i) && !Busy(a, j) ensures i == j {
      BusyIsUsed(st, i);
      BusyIsUsed(st, j);
      ProbedHeld(st.bufs, st.k, i);
      ProbedHeld(st.bufs, st.k, j);
    }
  }

  /** A block that is not cached is in nobody's hands. */
  lemma {:induction false} NotInHand(st: Cache, num: u32)
    requires Coherent(st) && Lookup(st.bufs, 0, num, 0) == 32
    ensures !InHand(Abs(st), num)
  {
    forall i: nat | Busy(Abs(st), i) ensures Abs(st).handles[i].num != num {
      BusyIsUsed(st, i);
      assert BufferOk(st.disk, st.bufs[i]) && !Caches(st.bufs, i, 0, num);
    }
  }

  /** A block handed out was in somebody's hands, or its buffer was idle. */
  lemma HandedOut(st: Cache, num: u32, i: Index)
    requires Coherent(st) && (Busy(Abs(st), i) ==> Abs(st).handles[i].num == num)
    ensures !NoneIdle(Abs(st)) || InHand(Abs(st), num)
  {}

  lemma ModifyStep(st: Cache, i: Index, data: BlockData)
    requires Coherent(st) && st.bufs[i].used
    ensures var s := Exec(st, Modify(i, data));
      Coherent(s.st) && Abs(s.st) == Effect(Abs(st), Modify(i, data), s.ret)
  {
    var st' := Modified(st, i, data);
    HolderSees(st, i);
    NumBlocksIff(st.disk, st.bufs[i].num);
    ModifyUpdates(st, i, data, st.bufs[i].num);
    forall n: nat | n < NumBlocks(st.disk)
      ensures Blocks(st')[n] == if n == st.bufs[i].num then data else Blocks(st)[n]
    {
      NumBlocksIff(st.disk, n);
      ModifyUpdates(st, i, data, n);
    }
    assert Blocks(st') == Blocks(st)[st.bufs[i].num := data];
    assert Handles(st'.bufs) == Handles(st.bufs);
  }

  lemma ReleaseHeld(st: Cache, i: Index)
    requires Coherent(st) && st.bufs[i].count > 0
    ensures var st' := Released(st, i); var c := st.bufs[i].count - 1;
      && Coherent(st') && Blocks(st') == Blocks(st)
      && Handles(st'.bufs) == Handles(st.bufs)[i := if c == 0 then Idle else On(st.bufs[i].num, c)]
  {
    assert BufferOk(st.disk, st.bufs[i]);
    var c := st.bufs[i].count - 1;
    var b' := st.bufs[i].(count := c, used := c > 0);
    RecountKeeps(st, i, c);
    assert Released(st, i) == st.(bufs := st.bufs[i := b']);
    SameBlocks(st, Released(st, i));
    OneHandle(st.bufs, i, b');
  }

  lemma BusyIff(st: Cache, i: nat)
    ensures Busy(Abs(st), i) <==> i < 32 && st.bufs[i].count > 0
    ensures Busy(Abs(st), i) ==> Abs(st).handles[i] == On(st.bufs[i].num, st.bufs[i].count)
  {}

  lemma ReleaseStep(st: Cache, i: nat)
    requires Coherent(st)
    ensures var s := Exec(st, Release(i));
      && Coherent(s.st) && s.ret == (if Busy(Abs(st), i) then 0 else EINVAL)
      && Abs(s.st) == if Busy(Abs(st), i) then Dropped(Abs(st), i) else Abs(st)
  {
    BusyIff(st, i);
    if i < 32 && st.bufs[i].count > 0 { ReleaseHeld(st, i); }
  }

  lemma OneHandle(bufs: Buffers, i: Index, b': Buffer)
    ensures Handles(bufs[i := b']) == Handles(bufs)[i := HandleOf(b')]
  {}

  lemma FlushStep(st: Cache, i: nat)
    requires Coherent(st)
    ensures var s := Exec(st, Flush(i));
      Coherent(s.st) && s.ret == (if Busy(Abs(st), i) then 0 else EINVAL) && Abs(s.st) == Abs(st)
  {
    if i < 32 && st.bufs[i].count > 0 {
      FlushKeeps(st, i);
      SameBlocks(st, Flushed(st, i));
      assert Handles(Flushed(st, i).bufs) == Handles(st.bufs);
    }
  }

  lemma ExecStep(st: Cache, op: Op)
    requires Coherent(st) && Fair(st, op)
    ensures var s := Exec(st, op);
      Coherent(s.st) && Correct(Abs(st), op, s.ret) && Abs(s.st) == Effect(Abs(st), op, s.ret)
  {
    match op
    case Read(dev, num) => ReadStep(st, dev, num);
    case Modify(i, data) => ModifyStep(st, i, data);
    case Release(i) => ReleaseStep(st, i);
    case Flush(i) => FlushStep(st, i);
    case FlushRelease(i) =>
      FlushStep(st, i);
      ReleaseStep(Exec(st, Flush(i)).st, i);
      assert Busy(Abs(st), i) ==> i < 32 && Flushed(st, i).bufs[i].count == st.bufs[i].count;
  }

  // ----- runs

  datatype Trace = Trace(st: Cache, rets: seq<int>)

  function Run(st: Cache, ops: seq<Op>): (r: Trace)
    ensures |r.rets| == |ops|
    decreases |ops|
  {
    if ops == [] then Trace(st, [])
    else
      var s := Exec(st, ops[0]);
      var r := Run(s.st, ops[1..]);
      Trace(r.st, [s.ret] + r.rets)
  }

  ghost predicate FairRun(st: Cache, ops: seq<Op>)
    decreases |ops|
  {
    ops != [] ==> Fair(st, ops[0]) && FairRun(Exec(st, ops[0]).st, ops[1..])
  }

  function Replay(a: Plain, ops: seq<Op>, rets: seq<int>): Plain
    requires |rets| == |ops|
    decreases |ops|
  {
    if ops == [] then a else Replay(Effect(a, ops[0], rets[0]), ops[1..], rets[1..])
  }

  ghost predicate AllCorrect(a: Plain, ops: seq<Op>, rets: seq<int>)
    requires |rets| == |ops|
    decreases |ops|
  {
    ops != [] ==> Correct(a, ops[0], rets[0]) && AllCorrect(Effect(a, ops[0], rets[0]), ops[1..], rets[1..])
  }

  /** The reads of a run that fail are exactly those that the state of the cache at that moment lets
      fail. */
  ghost predicate FailExactly(st: Cache, ops: seq<Op>, rets: seq<int>)
    requires |rets| == |ops|
    decreases |ops|
  {
    ops != [] ==>
      && (ops[0].Read? ==> (rets[0] < 0 <==> Fails(st, ops[0].dev, ops[0].num)))
      && FailExactly(Exec(st, ops[0]).st, ops[1..], rets[1..])
  }

  /** Over any run the cached device is the plain disk. */
  lemma {:induction false} RunRefinesDisk(st: Cache, ops: seq<Op>)
    requires Coherent(st) && FairRun(st, ops)
    ensures var r := Run(st, ops);
      && Coherent(r.st) && AllCorrect(Abs(st), ops, r.rets) && Abs(r.st) == Replay(Abs(st), ops, r.rets)
      && FailExactly(st, ops, r.rets)
    decreases |ops|
  {
    if ops != [] {
      var s := Exec(st, ops[0]);
      ExecStep(st, ops[0]);
      if ops[0].Read? { ReadKeeps(st, ops[0].dev, ops[0].num); }
      RunRefinesDisk(s.st, ops[1..]);
      assert Run(st, ops).rets[1..] == Run(s.st, ops[1..]).rets;
    }
  }

  /** binit() starts with the disk itself. */
  lemma InitIsDisk(disk: Image, bufs: Buffers, n: nat)
    requires forall i: Index :: !bufs[i].valid && !bufs[i].dirty && !bufs[i].used && bufs[i].count == 0
    requires n < NumBlocks(disk)
    ensures Coherent(Cache(disk, bufs, 0))
    ensures OnDisk(disk, n) && Abs(Cache(disk, bufs, 0)).blocks[n] == BlockAt(disk, n)
  {
    NumBlocksIff(disk, n);
  }

  /** Once no buffer is dirty, the device itself holds the plain disk. */
  lemma CleanIsDisk(st: Cache, n: nat)
    requires Coherent(st) && (forall i: Index :: !st.bufs[i].dirty) && n < NumBlocks(st.disk)
    ensures OnDisk(st.disk, n) && Abs(st).blocks[n] == BlockAt(st.disk, n)
  {
    NumBlocksIff(st.disk, n);
    var i := Lookup(st.bufs, 0, n, 0);
    if i < 32 { assert BufferOk(st.disk, st.bufs[i]); }
  }

  // ----- block numbers beyond 2^22

  lemma OffsetIs(n: u32)
    ensures Offset(n) == 1024 * (n % 0x40_0000)
  {
    assert n as int == n / 0x40_0000 * 0x40_0000 + n % 0x40_0000;
  }

  /** Two block numbers name the same bytes of the device exactly when they agree modulo 2^22. */
  lemma OffsetAliases(n: u32, m: u32)
    ensures Offset(n) == Offset(m) <==> n % 0x40_0000 == m % 0x40_0000
  {
    OffsetIs(n);
    OffsetIs(m);
  }

  /** Without the bound on block numbers coherence is lost: once the holder of block `n` has written
      its update through, a clean buffer of an aliasing block no longer equals its disk block. */
  lemma AliasGoesStale(st: Cache, i: Index, j: Index, data: BlockData)
    requires i != j && st.bufs[i].valid && st.bufs[j].valid && !st.bufs[j].dirty && st.bufs[i].count > 0
    requires st.bufs[i].num % 0x40_0000 == st.bufs[j].num % 0x40_0000
    requires Reachable(st.disk, st.bufs[i].dev, st.bufs[i].num) && data != st.bufs[j].data
    ensures var st' := Exec(Exec(st, Modify(i, data)).st, Flush(i)).st;
      var b := st'.bufs[j];
      && b == st.bufs[j] && Reachable(st'.disk, 0, b.num)
      && b.data != st'.disk[Offset(b.num)..Offset(b.num) + 1024]
  {
    var b := st.bufs[i];
    OffsetAliases(b.num, st.bufs[j].num);
    SpliceSlice(st.disk, Offset(b.num), data, Offset(b.num), Offset(b.num) + 1024);
  }
}
