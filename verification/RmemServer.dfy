/**
  The remote memory server (src/sys/mm/rmem/main.c): a bitmap allocator of blocks with owners.
  A run of requests behaves as a map from block numbers to an owner and the contents last written.
 */
module RmemServer {
  import opened Disk
  import opened Words
  import opened Bitmaps

  /** RMEM_NUM_BLOCKS and RMEM_BLOCK_SIZE. */
  const BLOCKS := 8192
  const BLOCK_SIZE := 4096

  const ENOMEM := -12
  const EFAULT := -14

  type Page = s: Image | |s| == 4096 witness seq(4096, _ => 0)

  function ZeroPage(): Page { seq(4096, _ => 0) }

  /** The state of one server: the blocks, their owners, the allocation map and `stats.nblocks`. */
  datatype Server = Server(blocks: seq<Page>, owners: seq<int>, bits: Bitmap, nblocks: nat)

  predicate Shape(s: Server) { |s.blocks| == |s.owners| == |s.bits| == 8192 }

  // ----- requests

  /** Replies carry an error code; an allocation also a block number, a read also a page. `Abort` is
      a failed assertion of the server. */
  datatype Reply = Reply(errcode: int, num: nat, page: Page) | Abort

  datatype Served = Served(s: Server, reply: Reply)

  function Status(code: int): Reply { Reply(code, 0, ZeroPage()) }

  /** do_rmem_alloc(). */
  function Allocate(s: Server, owner: int): (r: Served)
    requires Shape(s)
    ensures Shape(r.s)
  {
    if s.nblocks == BLOCKS then Served(s, Status(ENOMEM))
    else
      var bit := LeastClear(s.bits);
      if bit == |s.bits| then Served(s, Abort)
      else
        Served(s.(nblocks := s.nblocks + 1, bits := s.bits[bit := true], owners := s.owners[bit := owner]),
               Reply(0, bit, ZeroPage()))
  }

  /** do_rmem_free(). */
  function Free(s: Server, owner: int, num: nat): (r: Served)
    requires Shape(s)
    ensures Shape(r.s)
  {
    if num == 0 || num >= BLOCKS then Served(s, Status(EINVAL))
    else if s.nblocks == 1 || !s.bits[num] || s.owners[num] != owner then Served(s, Status(EFAULT))
    else
      Served(s.(blocks := s.blocks[num := ZeroPage()], nblocks := if s.nblocks == 0 then 0xffff_ffff else s.nblocks - 1,
                bits := s.bits[num := false]),
             Status(0))
  }

  /** do_rmem_write(): data for an unallocated block goes to block 0. */
  function Write(s: Server, num: nat, page: Page): (r: Served)
    requires Shape(s)
    ensures Shape(r.s)
  {
    if num == 0 || num >= BLOCKS then Served(s, Status(EINVAL))
    else if !s.bits[num] then Served(s.(blocks := s.blocks[0 := page]), Status(EFAULT))
    else Served(s.(blocks := s.blocks[num := page]), Status(0))
  }

  /** do_rmem_read(): an unallocated block reads as block 0. */
  function Read(s: Server, num: nat): Reply
    requires Shape(s)
  {
    if num == 0 || num >= BLOCKS then Status(EINVAL)
    else if !s.bits[num] then Reply(EFAULT, 0, s.blocks[0])
    else Reply(0, 0, s.blocks[num])
  }

  /** do_rmem_startup(). */
  function Startup(): (s: Server)
    ensures Shape(s)
  {
    Server(seq(8192, _ => ZeroPage()), seq(8192, _ => 0), seq(8192, i => i == 0), 1)
  }

  // ----- the invariant

  /** The counter is the number of set bits, block 0 is reserved, and free blocks are zero. */
  ghost predicate Good(s: Server)
  {
    && Shape(s)
    && s.nblocks == NSet(s.bits) && s.bits[0]
    && forall i: nat | 0 < i < 8192 && !s.bits[i] :: s.blocks[i] == ZeroPage()
  }

  lemma {:induction false} CountAfterFirst(b: Bitmap, n: nat)
    requires 0 < n <= |b| && b[0] && forall i: nat | 0 < i < n :: !b[i]
    ensures Count(b, n) == 1
  {
    if n > 1 { CountAfterFirst(b, n - 1); } else { assert Count(b, 0) == 0; }
  }

  lemma StartupGood()
    ensures Good(Startup())
  {
    var s := Startup();
    CountAfterFirst(s.bits, |s.bits|);
  }

  // ----- the abstract memory of a server

  datatype Cell = Cell(owner: int, page: Page)

  type Memory = map<nat, Cell>

  predicate Live(s: Server, n: nat)
    requires Shape(s)
  {
    0 < n < 8192 && s.bits[n]
  }

  function CellAt(s: Server, n: nat): Cell
    requires Shape(s) && n < 8192
  {
    Cell(s.owners[n], s.blocks[n])
  }

  ghost function Contents(s: Server): Memory
    requires Shape(s)
  {
    map n: nat | n < 8192 && Live(s, n) :: CellAt(s, n)
  }

  /** The counter reaches the size of the map exactly when every block is live. */
  lemma FullIff(s: Server)
    requires Good(s)
    ensures s.nblocks == 8192 <==> forall n: nat | 0 < n < 8192 :: Live(s, n)
    ensures s.nblocks < 8192 ==> 0 < LeastClear(s.bits) < 8192
  {
    CountFull(s.bits, 8192);
    RoomIffCount(s.bits);
    if forall n: nat | 0 < n < 8192 :: Live(s, n) {
      forall i: nat | i < 8192 ensures s.bits[i] { assert i > 0 ==> Live(s, i); }
    }
  }

  /** An allocation never aborts; it fails exactly on a full server; otherwise it hands out a
      block that was not live, never block 0, with zero contents. */
  lemma AllocateStep(s: Server, owner: int)
    requires Good(s)
    ensures var r := Allocate(s, owner);
      && Good(r.s) && r.reply.Reply?
      && (r.reply.errcode < 0 <==> forall n: nat | 0 < n < 8192 :: n in Contents(s))
      && (r.reply.errcode < 0 ==> r.s == s && r.reply.errcode == ENOMEM)
      && (r.reply.errcode >= 0 ==>
            && r.reply.errcode == 0 && 0 < r.reply.num < 8192 && r.reply.num !in Contents(s)
            && Contents(r.s) == Contents(s)[r.reply.num := Cell(owner, ZeroPage())])
  {
    FullIff(s);
    if s.nblocks != 8192 {
      CountMonotone(s.bits, 0, 8192);
      NSetUpdate(s.bits, LeastClear(s.bits), true);
    }
    assert forall n: nat | 0 < n < 8192 :: n in Contents(s) <==> Live(s, n);
  }

  /** Only the recorded owner frees a live block, and exactly then it is freed. */
  lemma FreeStep(s: Server, owner: int, num: nat)
    requires Good(s)
    ensures var r := Free(s, owner, num);
      && Good(r.s) && r.reply.Reply?
      && (r.reply.errcode == 0 <==> num in Contents(s) && Contents(s)[num].owner == owner)
      && (r.reply.errcode == 0 ==> Contents(r.s) == Contents(s) - {num})
      && (r.reply.errcode != 0 ==> r.s == s)
  {
    if Live(s, num) {
      TwoLive(s, num);
      NSetUpdate(s.bits, num, false);
    }
  }

  lemma TwoLive(s: Server, num: nat)
    requires Good(s) && Live(s, num)
    ensures s.nblocks >= 2
  {
    CountMonotone(s.bits, 1, num);
    CountMonotone(s.bits, num + 1, 8192);
    assert Count(s.bits, 0) == 0;
    assert Count(s.bits, 1) == 1;
  }

  /** A write reaches exactly its block; aimed at a block that is not live, it changes nothing but
      the reserved block 0. */
  lemma WriteStep(s: Server, num: nat, page: Page)
    requires Good(s)
    ensures var r := Write(s, num, page);
      && Good(r.s) && r.reply.Reply?
      && (r.reply.errcode == 0 <==> num in Contents(s))
      && Contents(r.s) == (if num in Contents(s) then Contents(s)[num := Contents(s)[num].(page := page)] else Contents(s))
      && (num !in Contents(s) ==> r.s.(blocks := r.s.blocks[0 := s.blocks[0]]) == s)
  {
    var r := Write(s, num, page);
    if 0 < num < 8192 && !Live(s, num) {
      assert r.s.blocks[0 := s.blocks[0]] == s.blocks;
    } else if !Live(s, num) {
      assert s.blocks[0 := s.blocks[0]] == s.blocks;
    }
  }

  lemma ReadStep(s: Server, num: nat)
    requires Good(s)
    ensures var r := Read(s, num);
      && r.Reply? && (r.errcode == 0 <==> num in Contents(s))
      && (num in Contents(s) ==> r.page == Contents(s)[num].page)
  {}

  // ----- runs

  datatype Request =
    | AllocReq(owner: int)
    | FreeReq(owner: int, num: nat)
    | WriteReq(num: nat, page: Page)
    | ReadReq(num: nat)

  function Serve(s: Server, q: Request): (r: Served)
    requires Shape(s)
    ensures Shape(r.s)
  {
    match q
    case AllocReq(owner) => Allocate(s, owner)
    case FreeReq(owner, num) => Free(s, owner, num)
    case WriteReq(num, page) => Write(s, num, page)
    case ReadReq(num) => Served(s, Read(s, num))
  }

  /** What a request answered with `r` does to the abstract memory. */
  ghost function Effect(m: Memory, q: Request, r: Reply): Memory
  {
    if !r.Reply? || r.errcode != 0 then m
    else
      match q
      case AllocReq(owner) => m[r.num := Cell(owner, ZeroPage())]
      case FreeReq(_, num) => m - {num}
      case WriteReq(num, page) => if num in m then m[num := m[num].(page := page)] else m
      case ReadReq(_) => m
  }

  /** Which replies are right. */
  ghost predicate Correct(m: Memory, q: Request, r: Reply)
  {
    r.Reply? &&
    match q
    case AllocReq(_) =>
      && (r.errcode == 0 ==> 0 < r.num < 8192 && r.num !in m)
      && (r.errcode != 0 <==> forall n: nat | 0 < n < 8192 :: n in m)
    case FreeReq(owner, num) => r.errcode == 0 <==> num in m && m[num].owner == owner
    case WriteReq(num, _) => r.errcode == 0 <==> num in m
    case ReadReq(num) => (r.errcode == 0 <==> num in m) && (num in m ==> r.page == m[num].page)
  }

  lemma ServeStep(s: Server, q: Request)
    requires Good(s)
    ensures var r := Serve(s, q);
      Good(r.s) && Correct(Contents(s), q, r.reply) && Contents(r.s) == Effect(Contents(s), q, r.reply)
  {
    match q
    case AllocReq(owner) => AllocateStep(s, owner);
    case FreeReq(owner, num) => FreeStep(s, owner, num);
    case WriteReq(num, page) => WriteStep(s, num, page);
    case ReadReq(num) => ReadStep(s, num);
  }

  datatype Trace = Trace(s: Server, replies: seq<Reply>)

  function Run(s: Server, qs: seq<Request>): (r: Trace)
    requires Shape(s)
    ensures |r.replies| == |qs|
    decreases |qs|
  {
    if qs == [] then Trace(s, [])
    else
      var v := Serve(s, qs[0]);
      var r := Run(v.s, qs[1..]);
      Trace(r.s, [v.reply] + r.replies)
  }

  ghost function Replay(m: Memory, qs: seq<Request>, rs: seq<Reply>): Memory
    requires |rs| == |qs|
    decreases |qs|
  {
    if qs == [] then m else Replay(Effect(m, qs[0], rs[0]), qs[1..], rs[1..])
  }

  ghost predicate AllCorrect(m: Memory, qs: seq<Request>, rs: seq<Reply>)
    requires |rs| == |qs|
    decreases |qs|
  {
    qs != [] ==> Correct(m, qs[0], rs[0]) && AllCorrect(Effect(m, qs[0], rs[0]), qs[1..], rs[1..])
  }

  lemma {:induction false} RunFrom(s: Server, qs: seq<Request>)
    requires Good(s)
    ensures var r := Run(s, qs);
      Good(r.s) && AllCorrect(Contents(s), qs, r.replies) && Contents(r.s) == Replay(Contents(s), qs, r.replies)
    decreases |qs|
  {
    if qs != [] {
      var v := Serve(s, qs[0]);
      ServeStep(s, qs[0]);
      RunFrom(v.s, qs[1..]);
      assert Run(s, qs).replies[1..] == Run(v.s, qs[1..]).replies;
    }
  }

  /** From start-up on, every run of requests of any clients behaves as the abstract memory, which
      starts empty: in particular no assertion fails, no live block is handed out again, and a
      read returns the last write since the allocation, or zeros. */
  lemma {:induction false} RunRefinesMemory(qs: seq<Request>)
    ensures var r := Run(Startup(), qs);
      Good(r.s) && AllCorrect(map[], qs, r.replies) && Contents(r.s) == Replay(map[], qs, r.replies)
  {
    StartupGood();
    assert Contents(Startup()) == map[];
    RunFrom(Startup(), qs);
  }

  // ----- the server as it runs

  /** The static state of the server; every request handler is proved against its function. */
  class Node {
    const blocks: array<Page>
    const owners: array<int>
    const bitmap: array<bv32>
    var nblocks: nat

    ghost predicate Valid()
      reads this
    {
      && blocks.Length == owners.Length == 8192 && bitmap.Length == 256
      && blocks as object != owners && blocks as object != bitmap && owners as object != bitmap
    }

    ghost function State(): (s: Server)
      requires Valid()
      reads this, blocks, owners, bitmap
      ensures Shape(s)
    {
      Server(blocks[..], owners[..], Bits(bitmap[..]), nblocks)
    }

    /** do_rmem_startup(): `memory` is the page memory before it is cleaned. */
    constructor (memory: Page)
      ensures Valid() && State() == Startup()
    {
      blocks := new Page[8192](_ => memory);
      owners := new int[8192](_ => 0);
      bitmap := new bv32[256](_ => 0);
      nblocks := 0;
      new;
      nblocks := nblocks + 1;
      forall j: nat | j < 8192 ensures !Bits(bitmap[..])[j] { MaskOneHot(j % 32); }
      Set(bitmap, 0);
      for i := 0 to 8192
        invariant Valid() && nblocks == 1 && Bits(bitmap[..]) == Startup().bits && owners[..] == Startup().owners
        invariant forall j: nat | j < i :: blocks[j] == ZeroPage()
      {
        blocks[i] := ZeroPage();
      }
      assert blocks[..] == Startup().blocks;
    }

    /** do_rmem_alloc(): `ok` is false when the assertion that a free block was found fails. */
    method Alloc(owner: int) returns (ok: bool, errcode: int, num: nat)
      requires Valid()
      modifies this, owners, bitmap
      ensures Valid()
      ensures Served(State(), if ok then Reply(errcode, num, ZeroPage()) else Abort) == Allocate(old(State()), owner)
    {
      if nblocks == BLOCKS { return true, ENOMEM, 0; }
      var bit := FindFirstFree(bitmap, BLOCKS / 32 * 4);
      if bit == FULL { return false, 0, 0; }
      LeastClearIs(Bits(bitmap[..]), bit);
      nblocks := nblocks + 1;
      Set(bitmap, bit);
      owners[bit] := owner;
      return true, 0, bit;
    }

    /** do_rmem_free(). */
    method Release(owner: int, num: nat) returns (errcode: int)
      requires Valid()
      modifies this, blocks, bitmap
      ensures Valid() && Served(State(), Status(errcode)) == Free(old(State()), owner, num)
    {
      if num == 0 || num >= BLOCKS { return EINVAL; }
      if nblocks == 1 { return EFAULT; }
      var live := CheckBit(bitmap, num);
      if !live { return EFAULT; }
      if owners[num] != owner { return EFAULT; }
      blocks[num] := ZeroPage();
      nblocks := if nblocks == 0 then 0xffff_ffff else nblocks - 1;
      Clear(bitmap, num);
      return 0;
    }

    /** do_rmem_write(). */
    method Store(num: nat, page: Page) returns (errcode: int)
      requires Valid()
      modifies blocks
      ensures Valid() && Served(State(), Status(errcode)) == Write(old(State()), num, page)
    {
      var blk := num;
      errcode := 0;
      if blk == 0 || blk >= BLOCKS { return EINVAL; }
      var live := CheckBit(bitmap, blk);
      if !live { blk, errcode := 0, EFAULT; }
      blocks[blk] := page;
    }

    /** do_rmem_read(): no page is sent for an invalid block number. */
    method Load(num: nat) returns (errcode: int, page: Page)
      requires Valid()
      ensures Reply(errcode, 0, page) == Read(State(), num)
    {
      var blk := num;
      errcode := 0;
      if blk == 0 || blk >= BLOCKS { return EINVAL, ZeroPage(); }
      var live := CheckBit(bitmap, blk);
      if !live { blk, errcode := 0, EFAULT; }
      page := blocks[blk];
    }
  }
}
