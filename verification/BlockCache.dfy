/**
  The write-back block cache (src/sys/fs/vfs/bcache/bcache.c): the eviction search, and the
  proof that the cached device always reads as the plain disk.
 */
module BlockCache {
  import opened Disk

  type BlockData = s: Image | |s| == 1024 witness seq(1024, _ => 0)

  datatype Buffer = Buffer(valid: bool, dirty: bool, used: bool, dev: nat, num: u32, data: BlockData, count: nat)

  /** The pool of NANVIX_FS_NR_BUFFERS buffers. */
  type Buffers = s: seq<Buffer> | |s| == 32
    witness seq(32, _ => Buffer(false, false, false, 0, 0, seq(1024, _ => 0), 0))

  // ----- the eviction search

  type Index = i: nat | i < 32

  datatype Search = Running(i: Index, pick: int) | Done(pick: int)

  /** `(k - 1) % N` in C, where the remainder of a negative number is negative. */
  function StopAt(k: Index): int { if k == 0 then -1 else (k - 1) % 32 }

  function Next(i: Index): (r: Index)
    ensures r == (i + 1) % 32
  {
    if i == 31 then 0 else i + 1
  }

  predicate CleanUnused(b: Buffer) { !b.used && !b.dirty }

  predicate DirtyUnused(b: Buffer) { !b.used && b.dirty }

  /** One iteration of the loop in evict(). */
  function SearchStep(bufs: Buffers, k: Index, s: Search): Search
  {
    match s
    case Done(_) => s
    case Running(i, pick) =>
      if i == StopAt(k) then Done(pick)
      else if bufs[i].used then Running(Next(i), pick)
      else if bufs[i].dirty then Running(Next(i), i)
      else Done(i)
  }

  /** The loop after `n` iterations. */
  function Searching(bufs: Buffers, k: Index, n: nat): Search
  {
    if n == 0 then Running(k, -1) else SearchStep(bufs, k, Searching(bufs, k, n - 1))
  }

  /** The buffer that the `j`-th probe of a search from `k` looks at. */
  function Probe(k: Index, j: nat): (r: Index)
    requires j <= 32
    ensures r == (k + j) % 32
  {
    if k + j < 32 then k + j else k + j - 32
  }

  /** How many buffers a search from `k` looks at before it stops or starts over. */
  function Range(k: Index): nat { if k == 0 then 32 else 31 }

  ghost predicate NoCleanIn(bufs: Buffers, k: Index, n: nat)
    requires n <= 32
  {
    forall j: nat | j < n :: !CleanUnused(bufs[Probe(k, j)])
  }

  ghost predicate NoDirtyIn(bufs: Buffers, k: Index, m: nat, n: nat)
    requires n <= 32
  {
    forall j: nat | m <= j < n :: !DirtyUnused(bufs[Probe(k, j)])
  }

  /** The `m`-th probe is the last one among the first `n` that sees a dirty unused buffer. */
  ghost predicate LastDirtyAt(bufs: Buffers, k: Index, n: nat, m: nat)
    requires n <= 32
  {
    m < n && DirtyUnused(bufs[Probe(k, m)]) && NoDirtyIn(bufs, k, m + 1, n)
  }

  /** `pick` is the last dirty unused buffer among the first `n` probes, or -1. */
  ghost predicate LastDirty(bufs: Buffers, k: Index, n: nat, pick: int)
    requires n <= 32
  {
    if pick < 0 then pick == -1 && NoDirtyIn(bufs, k, 0, n)
    else exists m: nat :: LastDirtyAt(bufs, k, n, m) && pick == Probe(k, m)
  }

  lemma LastDirtyStep(bufs: Buffers, k: Index, n: nat, pick: int)
    requires n < 32 && LastDirty(bufs, k, n, pick)
    ensures var i := Probe(k, n); LastDirty(bufs, k, n + 1, if DirtyUnused(bufs[i]) then i else pick)
  {
    if DirtyUnused(bufs[Probe(k, n)]) {
      assert LastDirtyAt(bufs, k, n + 1, n);
    } else if pick >= 0 {
      var m: nat :| LastDirtyAt(bufs, k, n, m) && pick == Probe(k, m);
      assert LastDirtyAt(bufs, k, n + 1, m);
    }
  }

  lemma {:induction false} StillSearching(bufs: Buffers, k: Index, n: nat)
    requires n <= Range(k) && NoCleanIn(bufs, k, n)
    ensures Searching(bufs, k, n).Running? && Searching(bufs, k, n).i == Probe(k, n)
    ensures LastDirty(bufs, k, n, Searching(bufs, k, n).pick)
  {
    if n > 0 {
      StillSearching(bufs, k, n - 1);
      LastDirtyStep(bufs, k, n - 1, Searching(bufs, k, n - 1).pick);
      assert !CleanUnused(bufs[Probe(k, n - 1)]);
    }
  }

  lemma {:induction false} DoneStays(bufs: Buffers, k: Index, n: nat, n': nat)
    requires Searching(bufs, k, n).Done? && n <= n'
    ensures Searching(bufs, k, n') == Searching(bufs, k, n)
  {
    if n < n' { DoneStays(bufs, k, n, n' - 1); }
  }

  /** Without a clean unused buffer, a search from position 0 goes round and round. */
  lemma {:induction false} SearchDiverges(bufs: Buffers, n: nat)
    requires NoCleanIn(bufs, 0, 32)
    ensures Searching(bufs, 0, n).Running?
  {
    if n > 0 {
      SearchDiverges(bufs, n - 1);
      var i := Searching(bufs, 0, n - 1).i;
      assert Probe(0, i) == i && !CleanUnused(bufs[i]);
    }
  }

  /** The first of the probes `j`, `j + 1`, ... that sees a clean unused buffer. */
  function FirstClean(bufs: Buffers, k: Index, j: nat): (m: nat)
    requires j <= Range(k)
    ensures j <= m <= Range(k)
    ensures forall i: nat | j <= i < m :: !CleanUnused(bufs[Probe(k, i)])
    ensures m < Range(k) ==> CleanUnused(bufs[Probe(k, m)])
    decreases Range(k) - j
  {
    if j == Range(k) || CleanUnused(bufs[Probe(k, j)]) then j else FirstClean(bufs, k, j + 1)
  }

  /** The search never ends. */
  ghost predicate Hangs(bufs: Buffers, k: Index)
  {
    k == 0 && NoCleanIn(bufs, k, 32)
  }

  /** evict() terminates exactly when it does not start at 0 on a pool without a clean unused
      buffer; it then stops after at most 32 iterations. */
  lemma {:induction false} SearchEndsIff(bufs: Buffers, k: Index)
    ensures (exists n: nat :: Searching(bufs, k, n).Done?) <==> !Hangs(bufs, k)
    ensures !Hangs(bufs, k) ==> Searching(bufs, k, 32).Done?
  {
    if Hangs(bufs, k) {
      forall n: nat ensures Searching(bufs, k, n).Running? { SearchDiverges(bufs, n); }
    } else {
      SearchEnds(bufs, k);
    }
  }

  lemma {:induction false} SearchEnds(bufs: Buffers, k: Index)
    requires !Hangs(bufs, k)
    ensures var m := FirstClean(bufs, k, 0); var s := Searching(bufs, k, 32);
      && s.Done?
      && (m < Range(k) ==> s.pick == Probe(k, m))
      && (m == Range(k) ==> LastDirty(bufs, k, 31, s.pick))
  {
    var m := FirstClean(bufs, k, 0);
    if m < Range(k) {
      StillSearching(bufs, k, m);
      assert Searching(bufs, k, m + 1) == Done(Probe(k, m));
      DoneStays(bufs, k, m + 1, 32);
    } else {
      assert k != 0;
      StillSearching(bufs, k, 31);
      assert Probe(k, 31) == StopAt(k);
      assert Searching(bufs, k, 32) == Done(Searching(bufs, k, 31).pick);
    }
  }

  /** The buffer evict() selects, or -1. */
  function Picked(bufs: Buffers, k: Index): int { Searching(bufs, k, 32).pick }

  /** What evict() selects: never a held buffer; a clean one whenever the scanned range holds one,
      and then the first; otherwise the last dirty one; nothing only if all scanned are held. */
  lemma {:induction false} PickedWell(bufs: Buffers, k: Index)
    requires !Hangs(bufs, k)
    ensures var p := Picked(bufs, k);
      && -1 <= p < 32
      && (p >= 0 ==> !bufs[p].used)
      && (p >= 0 && bufs[p].dirty ==> NoCleanIn(bufs, k, Range(k)) && LastDirty(bufs, k, Range(k), p))
      && (p >= 0 && !bufs[p].dirty ==> p == Probe(k, FirstClean(bufs, k, 0)))
      && (p == -1 <==> forall j: nat | j < Range(k) :: bufs[Probe(k, j)].used)
  {
    SearchEnds(bufs, k);
    var m := FirstClean(bufs, k, 0);
    var p := Picked(bufs, k);
    if m == Range(k) {
      assert k != 0;
      if p >= 0 {
        var j: nat :| LastDirtyAt(bufs, k, 31, j) && p == Probe(k, j);
      } else {
        forall j: nat | j < Range(k) ensures bufs[Probe(k, j)].used {
          assert !DirtyUnused(bufs[Probe(k, j)]) && !CleanUnused(bufs[Probe(k, j)]);
        }
      }
    }
  }

  // ----- devices, blocks and buffers

  datatype Cache = Cache(disk: Image, bufs: Buffers, k: Index)

  /** The byte offset that bdev_readblk() computes in 32 bits. */
  function Offset(num: u32): nat { num as int * 1024 % 0x1_0000_0000 }

  predicate Reachable(disk: Image, dev: nat, num: u32)
  {
    dev == 0 && InRange(disk, Offset(num), 1024)
  }

  /** bdev_writeblk(), whose result is not looked at. */
  function WrittenBack(disk: Image, b: Buffer): (r: Image)
    ensures |r| == |disk|
  {
    if Reachable(disk, b.dev, b.num) then Splice(disk, Offset(b.num), b.data) else disk
  }

  /** evict(): the selected buffer is written back if dirty, and invalidated. */
  function Evicted(st: Cache): Cache
  {
    var p := Picked(st.bufs, st.k);
    if !(0 <= p < 32) then st.(k := Next(st.k))
    else
      var b := st.bufs[p];
      Cache(if b.dirty then WrittenBack(st.disk, b) else st.disk,
            st.bufs[p := b.(valid := false, dirty := false)],
            Next(st.k))
  }

  predicate Caches(bufs: Buffers, i: nat, dev: nat, num: u32)
  {
    i < 32 && bufs[i].valid && bufs[i].dev == dev && bufs[i].num == num
  }

  /** The search loop of getblk(), from buffer `i` on: 32 if no valid buffer holds the block. */
  function Lookup(bufs: Buffers, dev: nat, num: u32, i: nat): (r: nat)
    requires i <= 32
    ensures i <= r <= 32 && (r < 32 ==> Caches(bufs, r, dev, num))
    ensures forall j: nat | i <= j < r :: !Caches(bufs, j, dev, num)
    decreases 32 - i, num
  {
    if i == 32 || Caches(bufs, i, dev, num) then i else Lookup(bufs, dev, num, i + 1)
  }

  function Held(b: Buffer): Buffer { b.(count := b.count + 1, used := true) }

  datatype Got = Got(st: Cache, buf: int)

  /** getblk(): -1 stands for the null pointer. */
  function Gotten(st: Cache, dev: nat, num: u32): Got
  {
    var i := Lookup(st.bufs, dev, num, 0);
    if i < 32 then Got(st.(bufs := st.bufs[i := Held(st.bufs[i])]), i)
    else
      var p, e := Picked(st.bufs, st.k), Evicted(st);
      if !(0 <= p < 32) then Got(e, -1)
      else Got(e.(bufs := e.bufs[p := Held(e.bufs[p].(dev := dev, num := num))]), p)
  }

  /** brelse() on buffer `i`. */
  function Released(st: Cache, i: Index): Cache
  {
    var b := st.bufs[i];
    if b.count == 0 then st
    else st.(bufs := st.bufs[i := b.(count := b.count - 1, used := b.used && b.count != 1)])
  }

  /** bread(). */
  function ReadIn(st: Cache, dev: nat, num: u32): Got
  {
    var g := Gotten(st, dev, num);
    if !(0 <= g.buf < 32) || g.st.bufs[g.buf].valid then g
    else if !Reachable(g.st.disk, dev, num) then Got(Released(g.st, g.buf), -1)
    else
      var data := g.st.disk[Offset(num)..Offset(num) + 1024];
      g.(st := g.st.(bufs := g.st.bufs[g.buf := g.st.bufs[g.buf].(valid := true, data := data)]))
  }

  /** bwrite2() on buffer `i`. */
  function Flushed(st: Cache, i: Index): Cache
  {
    var b := st.bufs[i];
    if b.count == 0 || !b.valid || !b.dirty then st
    else Cache(WrittenBack(st.disk, b), st.bufs[i := b.(dirty := false)], st.k)
  }

  /** A client that fills a buffer with `data` and calls buffer_set_dirty(). */
  function Modified(st: Cache, i: Index, data: BlockData): Cache
  {
    st.(bufs := st.bufs[i := st.bufs[i].(data := data, dirty := true)])
  }

  // ----- coherence

  function BlockAt(disk: Image, n: nat): BlockData
    requires (n + 1) * 1024 <= |disk|
  {
    disk[n * 1024..(n + 1) * 1024]
  }

  /** A block of the device whose offset is not truncated. */
  predicate OnDisk(disk: Image, n: nat) { (n + 1) * 1024 <= |disk| && n < 0x40_0000 }

  lemma OffsetExact(n: u32)
    requires n < 0x40_0000
    ensures Offset(n) == n as int * 1024
  {}

  /** A buffer is held exactly while it is counted; a held or dirty buffer is valid; a valid
      buffer belongs to a block of the device, and if it is clean it equals that block. */
  predicate BufferOk(disk: Image, b: Buffer)
  {
    && (b.used <==> b.count > 0)
    && (b.used || b.dirty ==> b.valid)
    && (b.valid ==> b.dev == 0 && OnDisk(disk, b.num))
    && (b.valid && !b.dirty ==> b.data == BlockAt(disk, b.num))
  }

  /** No block is cached twice. */
  ghost predicate Unique(bufs: Buffers)
  {
    forall i: Index, j: Index | bufs[i].valid && bufs[j].valid && bufs[i].dev == bufs[j].dev && bufs[i].num == bufs[j].num :: i == j
  }

  ghost predicate Coherent(st: Cache)
  {
    (forall i: Index :: BufferOk(st.disk, st.bufs[i])) && Unique(st.bufs)
  }

  /** The contents of block `n` as clients see them. */
  function Logical(st: Cache, n: u32): BlockData
    requires OnDisk(st.disk, n)
  {
    var i := Lookup(st.bufs, 0, n, 0);
    if i < 32 then st.bufs[i].data else BlockAt(st.disk, n)
  }

  lemma {:induction false} LookupIs(bufs: Buffers, i: Index, dev: nat, num: u32)
    requires Unique(bufs) && Caches(bufs, i, dev, num)
    ensures Lookup(bufs, dev, num, 0) == i
  {
    var j := Lookup(bufs, dev, num, 0);
    assert j <= i;
    assert Caches(bufs, j, dev, num);
  }

  /** Clients see the same contents of every block. */
  ghost predicate SameView(st: Cache, st': Cache)
  {
    && |st'.disk| == |st.disk|
    && forall n: u32 | OnDisk(st.disk, n) :: Logical(st', n) == Logical(st, n)
  }

  lemma WriteBackBlock(disk: Image, b: Buffer, n: nat)
    requires b.dev == 0 && OnDisk(disk, b.num) && OnDisk(disk, n)
    ensures BlockAt(WrittenBack(disk, b), n) == if n == b.num then b.data else BlockAt(disk, n)
  {
    OffsetExact(b.num);
    SpliceSlice(disk, b.num as int * 1024, b.data, n * 1024, (n + 1) * 1024);
  }

  /** A step on one buffer: buffer `p` becomes `b'`, and the device becomes `disk'`, which differs
      from the old one at most in the block that `p` caches. */
  ghost predicate OneBuffer(st: Cache, p: Index, b': Buffer, disk': Image)
  {
    var b := st.bufs[p];
    && |disk'| == |st.disk|
    && BufferOk(disk', b')
    && (b'.valid ==> b.valid && b'.num == b.num && b'.dev == b.dev && b'.data == b.data)
    && (b.valid && !b'.valid ==> OnDisk(disk', b.num) && BlockAt(disk', b.num) == b.data)
    && (forall n: nat | OnDisk(st.disk, n) && !(b.valid && n == b.num) :: BlockAt(disk', n) == BlockAt(st.disk, n))
  }

  lemma OneBufferKeeps(st: Cache, p: Index, b': Buffer, disk': Image, k': Index)
    requires Coherent(st) && OneBuffer(st, p, b', disk')
    ensures Coherent(Cache(disk', st.bufs[p := b'], k'))
  {
    var bufs' := st.bufs[p := b'];
    forall i: Index ensures BufferOk(disk', bufs'[i]) {
      assert BufferOk(st.disk, st.bufs[i]);
      assert i != p && st.bufs[i].valid ==> !(st.bufs[p].valid && st.bufs[i].num == st.bufs[p].num);
    }
  }

  lemma OneBufferView(st: Cache, p: Index, b': Buffer, disk': Image, k': Index)
    requires Coherent(st) && OneBuffer(st, p, b', disk')
    ensures SameView(st, Cache(disk', st.bufs[p := b'], k'))
  {
    var st' := Cache(disk', st.bufs[p := b'], k');
    OneBufferKeeps(st, p, b', disk', k');
    forall n: u32 | OnDisk(st.disk, n) ensures Logical(st', n) == Logical(st, n) {
      OneBufferBlock(st, p, b', disk', k', n);
    }
  }

  lemma OneBufferBlock(st: Cache, p: Index, b': Buffer, disk': Image, k': Index, n: u32)
    requires Coherent(st) && OneBuffer(st, p, b', disk') && OnDisk(st.disk, n)
    ensures Logical(Cache(disk', st.bufs[p := b'], k'), n) == Logical(st, n)
  {
    var bufs' := st.bufs[p := b'];
    var i := Lookup(st.bufs, 0, n, 0);
    var i' := Lookup(bufs', 0, n, 0);
    assert BufferOk(st.disk, st.bufs[p]);
    if i' < 32 {
      assert Caches(st.bufs, i', 0, n);
      LookupIs(st.bufs, i', 0, n);
    } else if i < 32 {
      assert !Caches(bufs', i, 0, n);
    } else {
      assert !Caches(st.bufs, p, 0, n);
    }
  }

  // ----- what every operation keeps

  /** Buffers that someone holds are the same. */
  ghost predicate HeldSame(st: Cache, st': Cache)
  {
    forall i: Index | st.bufs[i].used :: st'.bufs[i] == st.bufs[i]
  }

  /** evict() changes neither what clients see nor any held buffer. */
  lemma EvictKeeps(st: Cache)
    requires Coherent(st) && !Hangs(st.bufs, st.k)
    ensures var e, p := Evicted(st), Picked(st.bufs, st.k);
      && Coherent(e) && SameView(st, e) && HeldSame(st, e)
      && (0 <= p < 32 ==> !e.bufs[p].valid && e.bufs[p].count == 0)
  {
    var p := Picked(st.bufs, st.k);
    PickedWell(st.bufs, st.k);
    if 0 <= p < 32 {
      var b := st.bufs[p];
      assert BufferOk(st.disk, b);
      var disk' := if b.dirty then WrittenBack(st.disk, b) else st.disk;
      if b.dirty {
        forall n: nat | OnDisk(st.disk, n)
          ensures BlockAt(disk', n) == if n == b.num then b.data else BlockAt(st.disk, n)
        {
          WriteBackBlock(st.disk, b, n);
        }
      }
      var b' := b.(valid := false, dirty := false);
      assert OneBuffer(st, p, b', disk');
      OneBufferKeeps(st, p, b', disk', Next(st.k));
      OneBufferView(st, p, b', disk', Next(st.k));
    }
  }

  /** A block that is not cached leaves the cache as it was after evicting. */
  lemma {:induction false} EvictMisses(st: Cache, num: u32)
    requires !Hangs(st.bufs, st.k) && Lookup(st.bufs, 0, num, 0) == 32
    ensures Lookup(Evicted(st).bufs, 0, num, 0) == 32
  {
    var i := Lookup(Evicted(st).bufs, 0, num, 0);
    assert i < 32 ==> !Caches(st.bufs, i, 0, num);
  }

  /** The buffer after the block was read in for a first holder. */
  function Filled(b: Buffer, num: u32, data: BlockData): Buffer
  {
    Buffer(true, false, true, 0, num, data, b.count + 1)
  }

  lemma {:induction false} FillKeeps(st: Cache, p: Index, num: u32)
    requires Coherent(st) && !st.bufs[p].valid && OnDisk(st.disk, num) && Lookup(st.bufs, 0, num, 0) == 32
    ensures var st' := st.(bufs := st.bufs[p := Filled(st.bufs[p], num, BlockAt(st.disk, num))]);
      Coherent(st') && SameView(st, st')
  {
    var b' := Filled(st.bufs[p], num, BlockAt(st.disk, num));
    var st' := st.(bufs := st.bufs[p := b']);
    assert forall i: Index :: !Caches(st.bufs, i, 0, num);
    forall i: Index ensures BufferOk(st.disk, st'.bufs[i]) { assert BufferOk(st.disk, st.bufs[i]); }
    forall i: Index, j: Index | st'.bufs[i].valid && st'.bufs[j].valid && st'.bufs[i].dev == st'.bufs[j].dev && st'.bufs[i].num == st'.bufs[j].num
      ensures i == j
    {
      assert !Caches(st.bufs, i, 0, num) && !Caches(st.bufs, j, 0, num);
    }
    forall n: u32 | OnDisk(st.disk, n) ensures Logical(st', n) == Logical(st, n) {
      var i := Lookup(st.bufs, 0, n, 0);
      if i < 32 {
        assert Caches(st'.bufs, i, 0, n);
        LookupIs(st'.bufs, i, 0, n);
      } else if n == num {
        assert Caches(st'.bufs, p, 0, n);
        LookupIs(st'.bufs, p, 0, n);
      } else {
        var i' := Lookup(st'.bufs, 0, n, 0);
        assert i' < 32 ==> !Caches(st.bufs, i', 0, n);
      }
    }
  }

  /** Changing only the holders of buffer `i`. */
  lemma RecountKeeps(st: Cache, i: Index, count: nat)
    requires Coherent(st) && (count > 0 ==> st.bufs[i].valid)
    ensures var st' := st.(bufs := st.bufs[i := st.bufs[i].(count := count, used := count > 0)]);
      Coherent(st') && SameView(st, st')
  {
    var b' := st.bufs[i].(count := count, used := count > 0);
    assert BufferOk(st.disk, st.bufs[i]);
    assert OneBuffer(st, i, b', st.disk);
    OneBufferKeeps(st, i, b', st.disk, st.k);
    OneBufferView(st, i, b', st.disk, st.k);
  }

  /** bread() of a cached block. */
  lemma {:induction false} ReadHit(st: Cache, dev: nat, num: u32)
    requires Coherent(st) && Lookup(st.bufs, dev, num, 0) < 32
    ensures var i := Lookup(st.bufs, dev, num, 0); var b := st.bufs[i];
      && ReadIn(st, dev, num) == Got(st.(bufs := st.bufs[i := b.(count := b.count + 1, used := b.count + 1 > 0)]), i)
      && dev == 0 && OnDisk(st.disk, num) && b.data == Logical(st, num)
  {
    var i := Lookup(st.bufs, dev, num, 0);
    assert BufferOk(st.disk, st.bufs[i]);
  }

  /** The state bread() leaves after a miss. */
  lemma {:induction false} ReadMiss(st: Cache, dev: nat, num: u32)
    requires Coherent(st) && Lookup(st.bufs, dev, num, 0) == 32 && !Hangs(st.bufs, st.k) && num < 0x40_0000
    ensures var r, e, p := ReadIn(st, dev, num), Evicted(st), Picked(st.bufs, st.k);
      && (!(0 <= p < 32) ==> r == Got(e, -1))
      && (0 <= p < 32 && (dev != 0 || !OnDisk(st.disk, num)) ==>
            r == Got(e.(bufs := e.bufs[p := e.bufs[p].(dev := dev, num := num)]), -1))
      && (0 <= p < 32 && dev == 0 && OnDisk(st.disk, num) ==>
            && |e.disk| == |st.disk|
            && r == Got(e.(bufs := e.bufs[p := Filled(e.bufs[p], num, BlockAt(e.disk, num))]), p))
  {
    var p, e := Picked(st.bufs, st.k), Evicted(st);
    EvictKeeps(st);
    OffsetExact(num);
    if 0 <= p < 32 {
      assert BufferOk(e.disk, e.bufs[p]);
      assert e.bufs[p].(dev := dev, num := num) == Held(e.bufs[p].(dev := dev, num := num)).(count := 0, used := false);
    }
  }

  /** The block is not on the device, or it is not cached and all buffers that could be evicted for it
      are held. */
  ghost predicate Fails(st: Cache, dev: nat, num: u32)
  {
    || dev != 0 || !OnDisk(st.disk, num)
    || (Lookup(st.bufs, dev, num, 0) == 32 && forall j: nat | j < Range(st.k) :: st.bufs[Probe(st.k, j)].used)
  }

  /** bread() keeps the cache coherent and what clients see. It returns a buffer with exactly the
      logical contents of the block, taken from no other holder; it fails exactly for a block that
      is not on the device, or when the block is not cached and every buffer its search looks at is
      held. */
  lemma {:induction false} ReadKeeps(st: Cache, dev: nat, num: u32)
    requires Coherent(st) && num < 0x40_0000 && (Lookup(st.bufs, dev, num, 0) < 32 || !Hangs(st.bufs, st.k))
    ensures var r := ReadIn(st, dev, num);
      && Coherent(r.st) && SameView(st, r.st) && -1 <= r.buf < 32
      && (r.buf < 0 ==> HeldSame(st, r.st))
      && (r.buf < 0 <==> Fails(st, dev, num))
      && (r.buf >= 0 ==>
            && dev == 0 && OnDisk(st.disk, num)
            && Caches(r.st.bufs, r.buf, 0, num) && r.st.bufs[r.buf].data == Logical(st, num))
  {
    if Lookup(st.bufs, dev, num, 0) < 32 {
      ReadHit(st, dev, num);
      RecountKeeps(st, Lookup(st.bufs, dev, num, 0), st.bufs[Lookup(st.bufs, dev, num, 0)].count + 1);
    } else {
      var p, e := Picked(st.bufs, st.k), Evicted(st);
      PickedWell(st.bufs, st.k);
      EvictKeeps(st);
      ReadMiss(st, dev, num);
      if 0 <= p < 32 {
        if dev == 0 && OnDisk(st.disk, num) {
          EvictMisses(st, num);
          FillKeeps(e, p, num);
          assert Logical(e, num) == Logical(st, num);
        } else {
          var b' := e.bufs[p].(dev := dev, num := num);
          assert BufferOk(e.disk, e.bufs[p]);
          assert OneBuffer(e, p, b', e.disk);
          OneBufferKeeps(e, p, b', e.disk, e.k);
          OneBufferView(e, p, b', e.disk, e.k);
        }
      }
    }
  }

  /** Who holds what after bread(): the returned buffer has one more holder, no other changes. */
  lemma {:induction false} ReadHolders(st: Cache, dev: nat, num: u32, i: Index)
    requires Coherent(st) && num < 0x40_0000 && (Lookup(st.bufs, dev, num, 0) < 32 || !Hangs(st.bufs, st.k))
    ensures var r := ReadIn(st, dev, num);
      && (i != r.buf ==> r.st.bufs[i].count == st.bufs[i].count)
      && (i != r.buf && st.bufs[i].used ==> r.st.bufs[i] == st.bufs[i])
      && (i == r.buf ==> r.st.bufs[i].count == st.bufs[i].count + 1 && (st.bufs[i].used ==> st.bufs[i].num == num))
  {
    if Lookup(st.bufs, dev, num, 0) < 32 {
      ReadHit(st, dev, num);
    } else {
      PickedWell(st.bufs, st.k);
      EvictKeeps(st);
      ReadMiss(st, dev, num);
      var p := Picked(st.bufs, st.k);
      assert 0 <= p < 32 ==> BufferOk(st.disk, st.bufs[p]);
    }
  }

  /** bwrite2() changes nothing that clients see, and brings the block to the device. */
  lemma FlushKeeps(st: Cache, i: Index)
    requires Coherent(st)
    ensures var st' := Flushed(st, i); var b := st.bufs[i];
      && Coherent(st') && SameView(st, st')
      && st'.bufs == st.bufs[i := if b.count > 0 then b.(dirty := false) else b]
      && (b.count > 0 ==> OnDisk(st'.disk, b.num) && BlockAt(st'.disk, b.num) == Logical(st, b.num))
  {
    var b := st.bufs[i];
    assert BufferOk(st.disk, b);
    if b.count > 0 {
      assert Caches(st.bufs, i, 0, b.num);
      LookupIs(st.bufs, i, 0, b.num);
      if b.dirty {
        var disk' := WrittenBack(st.disk, b);
        forall n: nat | OnDisk(st.disk, n)
          ensures BlockAt(disk', n) == if n == b.num then b.data else BlockAt(st.disk, n)
        {
          WriteBackBlock(st.disk, b, n);
        }
        var b' := b.(dirty := false);
        assert OneBuffer(st, i, b', disk');
        OneBufferKeeps(st, i, b', disk', st.k);
        OneBufferView(st, i, b', disk', st.k);
      }
    }
  }

  /** A holder that modifies its buffer changes exactly that block. */
  lemma ModifyUpdates(st: Cache, i: Index, data: BlockData, n: u32)
    requires Coherent(st) && st.bufs[i].used && OnDisk(st.disk, n)
    ensures Coherent(Modified(st, i, data))
    ensures Logical(Modified(st, i, data), n) == if n == st.bufs[i].num then data else Logical(st, n)
  {
    var st' := Modified(st, i, data);
    forall j: Index ensures BufferOk(st.disk, st'.bufs[j]) { assert BufferOk(st.disk, st.bufs[j]); }
    var j, j' := Lookup(st.bufs, 0, n, 0), Lookup(st'.bufs, 0, n, 0);
    if n == st.bufs[i].num {
      assert Caches(st'.bufs, i, 0, n);
      LookupIs(st'.bufs, i, 0, n);
    } else if j < 32 {
      assert Caches(st'.bufs, j, 0, n);
      LookupIs(st'.bufs, j, 0, n);
    } else {
      assert j' < 32 ==> !Caches(st.bufs, j', 0, n);
    }
  }
}
