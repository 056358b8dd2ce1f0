/**
  The client side of remote memory (src/libruntime/mm/stub.c) over several servers: addresses that
  carry the server number (include/nanvix/servers/rmem.h), the round-robin choice of a server, and
  the routing of requests. A request and its reply are one call.
 */
module RmemStub {
  import opened Disk
  import opened RmemServer

  // ----- addresses

  /** RMEM_BLOCK(), on numbers. */
  function Address(server: nat, num: nat): u32
  {
    server % 256 * 0x100_0000 + num % 0x100_0000
  }

  /** RMEM_BLOCK_SERVER() and RMEM_BLOCK_NUM(), on numbers. */
  function ServerOf(a: u32): nat { a / 0x100_0000 }

  function NumOf(a: u32): nat { a % 0x100_0000 }

  /** Decoding an address gives the server and the block it was made from. */
  lemma DecodeEncode(server: nat, num: nat)
    requires server < 256 && num < 0x100_0000
    ensures ServerOf(Address(server, num)) == server && NumOf(Address(server, num)) == num
  {}

  /** Every address is the encoding of its two parts. */
  lemma EncodeDecode(a: u32)
    ensures ServerOf(a) < 256 && NumOf(a) < 0x100_0000 && Address(ServerOf(a), NumOf(a)) == a
  {}

  lemma SameAddress(a: u32, b: u32)
    requires ServerOf(a) == ServerOf(b) && NumOf(a) == NumOf(b)
    ensures a == b
  {}

  // ----- the macros on machine words

  /** RMEM_BLOCK_NUM(). */
  function BlockNum(x: bv32): bv32 { (x & 0xff_ffff) >> 0 }

  /** RMEM_BLOCK_SERVER(). */
  function BlockServer(x: bv32): bv32 { (x & (0xff << 24)) >> 24 }

  /** RMEM_BLOCK(). */
  function MakeBlock(server: bv32, num: bv32): bv32 { ((server << 24) & (0xff << 24)) | ((num << 0) & 0xff_ffff) }

  // A word as a number, one byte at a time. The function `v` stands for the conversion, so that what
  // follows from these equations is not decided bit by bit.
  ghost predicate TopByte(v: bv32 -> int, x: bv32) { v(x) == v(x >> 24) * 0x100_0000 + v(x & 0xff_ffff) }

  ghost predicate ThirdByte(v: bv32 -> int, x: bv32)
  {
    v(x & 0xff_ffff) == v((x >> 16) & 0xff) * 0x1_0000 + v(x & 0xffff)
  }

  ghost predicate SecondByte(v: bv32 -> int, x: bv32) { v(x & 0xffff) == v((x >> 8) & 0xff) * 256 + v(x & 0xff) }

  ghost predicate ByteSized(v: bv32 -> int, x: bv32) { 0 <= v(x & 0xff) < 256 }

  ghost predicate ByBytes(v: bv32 -> int, x: bv32)
  {
    && TopByte(v, x) && ThirdByte(v, x) && SecondByte(v, x)
    && ByteSized(v, x) && ByteSized(v, x >> 8) && ByteSized(v, x >> 16)
    && 0 <= v(x) < 0x1_0000_0000
  }

  lemma TopIs(x: bv32)
    ensures TopByte(y => y as int, x)
  {}

  lemma ThirdIs(x: bv32)
    ensures ThirdByte(y => y as int, x)
  {}

  lemma SecondIs(x: bv32)
    ensures SecondByte(y => y as int, x)
  {}

  lemma SizedIs(x: bv32)
    ensures ByteSized(y => y as int, x)
  {}

  lemma WordIs(x: bv32)
    ensures ByBytes(y => y as int, x)
  {
    TopIs(x);
    ThirdIs(x);
    SecondIs(x);
    SizedIs(x);
    SizedIs(x >> 8);
    SizedIs(x >> 16);
  }

  lemma Divided(v: bv32 -> int, x: bv32)
    requires ByBytes(v, x)
    ensures v(x >> 24) == v(x) / 0x100_0000 && v(x & 0xff_ffff) == v(x) % 0x100_0000 && v(x & 0xff) == v(x) % 256
  {
    DivMod24(v(x), v(x >> 24), v(x & 0xff_ffff));
    DivMod8(v(x), v(x >> 24) * 0x1_0000 + v((x >> 16) & 0xff) * 256 + v((x >> 8) & 0xff), v(x & 0xff));
  }

  lemma DivMod24(x: int, hi: int, lo: int)
    requires x == hi * 0x100_0000 + lo && 0 <= lo < 0x100_0000
    ensures hi == x / 0x100_0000 && lo == x % 0x100_0000
  {}

  lemma DivMod8(x: int, hi: int, lo: int)
    requires x == hi * 256 + lo && 0 <= lo < 256
    ensures lo == x % 256
  {}

  lemma MacroParts(x: bv32)
    ensures BlockNum(x) == x & 0xff_ffff && BlockServer(x) == x >> 24
  {}

  ghost predicate Decodes(v: bv32 -> int, x: bv32)
  {
    0 <= v(x) < 0x1_0000_0000 && v(BlockServer(x)) == ServerOf(v(x)) && v(BlockNum(x)) == NumOf(v(x))
  }

  lemma DecodeBy(v: bv32 -> int, x: bv32)
    requires ByBytes(v, x)
    ensures Decodes(v, x)
  {
    MacroParts(x);
    Divided(v, x);
  }

  lemma DecodeIs(x: bv32)
    ensures Decodes(y => y as int, x)
  {
    WordIs(x);
    DecodeBy(y => y as int, x);
  }

  /** The macros that take an address apart compute its server and block number. */
  lemma DecodeMacros(x: bv32)
    ensures BlockServer(x) as int == ServerOf(x as int) && BlockNum(x) as int == NumOf(x as int)
  {
    DecodeIs(x);
  }

  lemma BlockParts(server: bv32, num: bv32)
    ensures MakeBlock(server, num) >> 24 == server & 0xff && MakeBlock(server, num) & 0xff_ffff == num & 0xff_ffff
  {}

  ghost predicate Encodes(v: bv32 -> int, server: bv32, num: bv32)
  {
    v(server) >= 0 && v(num) >= 0 && v(MakeBlock(server, num)) == Address(v(server), v(num))
  }

  lemma EncodeBy(v: bv32 -> int, server: bv32, num: bv32)
    requires ByBytes(v, server) && ByBytes(v, num) && TopByte(v, MakeBlock(server, num))
    ensures Encodes(v, server, num)
  {
    BlockParts(server, num);
    Divided(v, server);
    Divided(v, num);
  }

  lemma EncodeIs(server: bv32, num: bv32)
    ensures Encodes(y => y as int, server, num)
  {
    WordIs(server);
    WordIs(num);
    TopIs(MakeBlock(server, num));
    EncodeBy(y => y as int, server, num);
  }

  /** The macro that builds an address, for every pair of words. */
  lemma EncodeMacro(server: bv32, num: bv32)
    ensures MakeBlock(server, num) as int == Address(server as int, num as int)
  {
    EncodeIs(server, num);
  }

  // ----- a set of servers

  /** Between 1 and 256 servers; server `i` of the sequence encodes `i` in its addresses. */
  type System = ss: seq<Server> | 1 <= |ss| <= 256 && forall i: nat | i < |ss| :: Shape(ss[i]) witness [Startup()]

  ghost predicate AllGood(sys: System)
  {
    forall i: nat | i < |sys| :: Good(sys[i])
  }

  /** The address leads to a server that exists. */
  predicate Routed(sys: System, a: u32) { ServerOf(a) < |sys| }

  predicate LivePage(sys: System, a: u32)
  {
    Routed(sys, a) && Live(sys[ServerOf(a)], NumOf(a))
  }

  function PageAt(sys: System, a: u32): Cell
    requires LivePage(sys, a)
  {
    CellAt(sys[ServerOf(a)], NumOf(a))
  }

  type Pages = map<u32, Cell>

  /** The live pages of all servers, by address. */
  ghost function Global(sys: System): Pages
  {
    map a: u32 | 0 <= a < 0x1_0000_0000 && LivePage(sys, a) :: PageAt(sys, a)
  }

  /** The page at an address, if it is live. */
  ghost function Look(m: Pages, a: u32): set<Cell> { if a in m then {m[a]} else {} }

  ghost function LookAt(m: Memory, n: nat): set<Cell> { if n in m then {m[n]} else {} }

  lemma GlobalAt(sys: System, a: u32)
    ensures Look(Global(sys), a) == if ServerOf(a) < |sys| then LookAt(Contents(sys[ServerOf(a)]), NumOf(a)) else {}
  {
    assert a in Global(sys) <==> LivePage(sys, a);
  }

  lemma SamePages(m: Pages, m': Pages)
    requires forall a: u32 :: Look(m, a) == Look(m', a)
    ensures m == m'
  {
    forall a: u32 ensures a in m <==> a in m' { assert Look(m, a) == Look(m', a); }
    forall a: u32 | a in m ensures m[a] == m'[a] { assert Look(m, a) == Look(m', a) && m[a] in Look(m, a); }
  }

  /** A request served by server `i` changes the pages of that server only. */
  lemma OneServerAt(sys: System, i: nat, s: Server, a: u32)
    requires i < |sys| && Shape(s)
    ensures Look(Global(sys[i := s]), a) == if ServerOf(a) == i then LookAt(Contents(s), NumOf(a)) else Look(Global(sys), a)
  {
    GlobalAt(sys, a);
    GlobalAt(sys[i := s], a);
  }

  lemma SameServer(sys: System, i: nat, s: Server)
    requires i < |sys| && Shape(s) && Contents(s) == Contents(sys[i])
    ensures Global(sys[i := s]) == Global(sys)
  {
    forall a: u32 ensures Look(Global(sys[i := s]), a) == Look(Global(sys), a) {
      OneServerAt(sys, i, s, a);
      GlobalAt(sys, a);
    }
    SamePages(Global(sys[i := s]), Global(sys));
  }

  lemma Updated(sys: System, s: Server, p: u32, c: Cell)
    requires Routed(sys, p) && Shape(s) && Contents(s) == Contents(sys[ServerOf(p)])[NumOf(p) := c]
    ensures Global(sys[ServerOf(p) := s]) == Global(sys)[p := c]
  {
    var i := ServerOf(p);
    var m := Global(sys)[p := c];
    forall a: u32 ensures Look(Global(sys[i := s]), a) == Look(m, a) {
      OneServerAt(sys, i, s, a);
      GlobalAt(sys, a);
      if ServerOf(a) == i && NumOf(a) == NumOf(p) { SameAddress(a, p); }
    }
    SamePages(Global(sys[i := s]), m);
  }

  lemma Removed(sys: System, s: Server, p: u32)
    requires Routed(sys, p) && Shape(s) && Contents(s) == Contents(sys[ServerOf(p)]) - {NumOf(p)}
    ensures Global(sys[ServerOf(p) := s]) == Global(sys) - {p}
  {
    var i := ServerOf(p);
    var m := Global(sys) - {p};
    forall a: u32 ensures Look(Global(sys[i := s]), a) == Look(m, a) {
      OneServerAt(sys, i, s, a);
      GlobalAt(sys, a);
      if ServerOf(a) == i && NumOf(a) == NumOf(p) { SameAddress(a, p); }
    }
    SamePages(Global(sys[i := s]), m);
  }

  // ----- the calls

  /** The answer of a call: a page number, an error code, a transfer of `size` bytes whose buffer now
      holds `page`, a call that left the buffer alone, or a call that never completes because
      server and client disagree about the messages that follow. */
  datatype Answer = PageNum(page: u32) | Error(code: int) | Moved(size: nat, data: Page) | Refused | Stuck

  datatype Call = Call(sys: System, answer: Answer)

  /** `nallocs++` on an unsigned counter. */
  function Succ(k: u32): u32 { if k == 0xffff_ffff then 0 else k + 1 }

  /** nanvix_rmem_alloc(), for a client that has made `nallocs` successful allocations. */
  function StubAlloc(sys: System, node: int, nallocs: u32): Call
  {
    AllocFrom(sys, node, nallocs % |sys|)
  }

  /** An allocation request to server `i`. */
  function AllocFrom(sys: System, node: int, i: nat): Call
    requires i < |sys|
  {
    var v := Allocate(sys[i], node);
    match v.reply
    case Abort => Call(sys, Stuck)
    case Reply(errcode, num, _) =>
      Call(sys[i := v.s], PageNum(if errcode < 0 then 0 else Address(i, num)))
  }

  predicate BadAddress(a: u32) { a == 0 || NumOf(a) >= BLOCKS }

  /** Addresses for which a transfer never completes. */
  predicate Confusing(a: u32) { a != 0 && NumOf(a) == 0 }

  /** nanvix_rmem_free(). */
  function StubFree(sys: System, node: int, a: u32): Call
    requires Routed(sys, a)
  {
    if BadAddress(a) then Call(sys, Error(EINVAL))
    else
      var i := ServerOf(a);
      var v := Free(sys[i], node, NumOf(a));
      match v.reply
      case Abort => Call(sys, Stuck)
      case Reply(errcode, _, _) => Call(sys[i := v.s], Error(errcode))
  }

  /** nanvix_rmem_read(). For block 0 of a server other than the first, the server rejects the
      request without sending the data the client waits for. */
  function StubRead(sys: System, a: u32): Call
    requires Routed(sys, a)
  {
    if BadAddress(a) then Call(sys, Refused)
    else
      match Read(sys[ServerOf(a)], NumOf(a))
      case Abort => Call(sys, Stuck)
      case Reply(errcode, _, page) =>
        if errcode == EINVAL then Call(sys, Stuck)
        else Call(sys, Moved(if errcode < 0 then 0 else BLOCK_SIZE, page))
  }

  /** nanvix_rmem_write(). */
  function StubWrite(sys: System, a: u32, page: Page): Call
    requires Routed(sys, a)
  {
    if BadAddress(a) then Call(sys, Refused)
    else
      var i := ServerOf(a);
      var v := Write(sys[i], NumOf(a), page);
      match v.reply
      case Abort => Call(sys, Stuck)
      case Reply(errcode, _, _) =>
        if errcode == EINVAL then Call(sys, Stuck)
        else Call(sys[i := v.s], Moved(if errcode < 0 then 0 else BLOCK_SIZE, page))
  }

  // ----- what each call does to the pages

  lemma LiveIff(sys: System, a: u32)
    requires Routed(sys, a)
    ensures a in Global(sys) <==> NumOf(a) in Contents(sys[ServerOf(a)])
    ensures a in Global(sys) ==> Global(sys)[a] == Contents(sys[ServerOf(a)])[NumOf(a)]
  {
    GlobalAt(sys, a);
    assert a in Global(sys) <==> Look(Global(sys), a) != {};
    if a in Global(sys) { assert Global(sys)[a] in Look(Global(sys), a); }
  }

  /** An allocation returns a page that is not null and not live anywhere, on the server it was sent
      to, or null exactly when that server is full. */
  lemma AllocFromStep(sys: System, node: int, i: nat)
    requires AllGood(sys) && i < |sys|
    ensures var c := AllocFrom(sys, node, i);
      && AllGood(c.sys) && |c.sys| == |sys| && c.answer.PageNum?
      && (c.answer.page == 0 <==> forall n: nat | 0 < n < 8192 :: n in Contents(sys[i]))
      && (c.answer.page == 0 ==> Global(c.sys) == Global(sys))
      && (c.answer.page != 0 ==>
            && ServerOf(c.answer.page) == i && c.answer.page !in Global(sys)
            && Global(c.sys) == Global(sys)[c.answer.page := Cell(node, ZeroPage())])
  {
    var v := Allocate(sys[i], node);
    AllocateStep(sys[i], node);
    if v.reply.errcode < 0 {
      assert sys[i := v.s] == sys;
    } else {
      var a := Address(i, v.reply.num);
      DecodeEncode(i, v.reply.num);
      NotNull(a);
      LiveIff(sys, a);
      Updated(sys, v.s, a, Cell(node, ZeroPage()));
    }
  }

  lemma NotNull(a: u32)
    requires NumOf(a) != 0
    ensures a != 0
  {}

  /** The round robin: the server whose turn it is decides, however empty the others are; a failed
      allocation does not pass the turn on. */
  lemma {:induction false} StubAllocStep(sys: System, node: int, nallocs: u32)
    requires AllGood(sys)
    ensures var c := StubAlloc(sys, node, nallocs);
      && AllGood(c.sys) && |c.sys| == |sys| && c.answer.PageNum?
      && (c.answer.page == 0 <==> forall n: nat | 0 < n < 8192 :: n in Contents(sys[nallocs % |sys|]))
      && (c.answer.page == 0 ==> Global(c.sys) == Global(sys))
      && (c.answer.page != 0 ==>
            && ServerOf(c.answer.page) == nallocs % |sys| && c.answer.page !in Global(sys)
            && Global(c.sys) == Global(sys)[c.answer.page := Cell(node, ZeroPage())])
  {
    AllocFromStep(sys, node, nallocs % |sys|);
  }

  // ----- several allocations in a row

  datatype Many = Many(sys: System, nallocs: u32, pages: seq<u32>)

  function NewPage(g: Pages, node: int, p: u32): Pages { g[p := Cell(node, ZeroPage())] }

  /** `g'` is `g` with new zero pages added one after the other, each of them not live when its turn
      comes. */
  predicate Grows(g: Pages, node: int, ps: seq<u32>, g': Pages)
    decreases |ps|
  {
    if ps == [] then g' == g
    else ps[0] != 0 && ps[0] !in g && Grows(NewPage(g, node, ps[0]), node, ps[1..], g')
  }

  /** Up to `n` allocations, until one fails. */
  function AllocMany(sys: System, node: int, nallocs: u32, n: nat): (r: Many)
    ensures |r.pages| <= n
    decreases n
  {
    if n == 0 then Many(sys, nallocs, [])
    else
      var c := StubAlloc(sys, node, nallocs);
      if !c.answer.PageNum? || c.answer.page == 0 then Many(c.sys, nallocs, [])
      else More(c.answer.page, AllocMany(c.sys, node, Succ(nallocs), n - 1))
  }

  function More(page: u32, r: Many): Many { r.(pages := [page] + r.pages) }

  /** The counter after `n` more successful allocations. */
  function Turns(nallocs: u32, n: nat): u32
    decreases n
  {
    if n == 0 then nallocs else Turns(Succ(nallocs), n - 1)
  }

  /** The pages that `n` allocations in a row obtain, with `servers` servers: each is a page of the
      server whose turn it is that is not live; it ends before `n` pages exactly when that server is
      full. */
  ghost predicate Obtains(servers: nat, live: set<u32>, nallocs: u32, n: nat, ps: seq<u32>)
    requires 0 < servers
    decreases |ps|
  {
    if ps == [] then n == 0 || ServerFull(live, nallocs % servers)
    else
      && 0 < n && !ServerFull(live, nallocs % servers)
      && ps[0] != 0 && ServerOf(ps[0]) == nallocs % servers && ps[0] !in live
      && Obtains(servers, live + {ps[0]}, Succ(nallocs), n - 1, ps[1..])
  }

  /** The outcome of one allocation. */
  ghost predicate AllocatesNew(sys: System, node: int, nallocs: u32, c: Call)
  {
    && AllGood(c.sys) && |c.sys| == |sys| && c.answer.PageNum?
    && (c.answer.page == 0 <==> ServerFull(Global(sys).Keys, nallocs % |sys|))
    && (c.answer.page == 0 ==> Global(c.sys) == Global(sys))
    && (c.answer.page != 0 ==>
          && ServerOf(c.answer.page) == nallocs % |sys| && c.answer.page !in Global(sys)
          && Global(c.sys) == NewPage(Global(sys), node, c.answer.page))
  }

  /** All pages in `r` are new in `sys`, nothing else changed, and there are as many as could be had. */
  ghost predicate AllocatesMany(sys: System, node: int, nallocs: u32, n: nat, r: Many)
  {
    && AllGood(r.sys) && |r.sys| == |sys| && Grows(Global(sys), node, r.pages, Global(r.sys))
    && Obtains(|sys|, Global(sys).Keys, nallocs, n, r.pages) && r.nallocs == Turns(nallocs, |r.pages|)
  }

  lemma {:induction false} MoreObtained(servers: nat, g: Pages, node: int, nallocs: u32, n: nat, p: u32, ps: seq<u32>, g': Pages)
    requires 0 < servers && 0 < n && !ServerFull(g.Keys, nallocs % servers)
    requires p != 0 && ServerOf(p) == nallocs % servers && p !in g
    requires Grows(NewPage(g, node, p), node, ps, g')
    requires Obtains(servers, NewPage(g, node, p).Keys, Succ(nallocs), n - 1, ps)
    ensures Grows(g, node, [p] + ps, g') && Obtains(servers, g.Keys, nallocs, n, [p] + ps)
    ensures Turns(nallocs, |[p] + ps|) == Turns(Succ(nallocs), |ps|)
  {
    assert ([p] + ps)[1..] == ps;
    assert NewPage(g, node, p).Keys == g.Keys + {p};
  }

  lemma MoreNew(sys: System, node: int, nallocs: u32, n: nat, c: Call, r: Many)
    requires 0 < n && AllocatesNew(sys, node, nallocs, c) && c.answer.page != 0
    requires AllocatesMany(c.sys, node, Succ(nallocs), n - 1, r)
    ensures AllocatesMany(sys, node, nallocs, n, More(c.answer.page, r))
  {
    MoreObtained(|sys|, Global(sys), node, nallocs, n, c.answer.page, r.pages, Global(r.sys));
  }

  lemma NoneNew(sys: System, node: int, sys': System, nallocs: u32, n: nat)
    requires AllGood(sys') && |sys'| == |sys| && Global(sys') == Global(sys)
    requires n == 0 || ServerFull(Global(sys).Keys, nallocs % |sys|)
    ensures AllocatesMany(sys, node, nallocs, n, Many(sys', nallocs, []))
  {}

  /** One round of the allocation loop. */
  lemma {:induction false} ManyStep(sys: System, node: int, nallocs: u32, n: nat)
    requires 0 < n
    ensures var r, c := AllocMany(sys, node, nallocs, n), StubAlloc(sys, node, nallocs);
      if !c.answer.PageNum? || c.answer.page == 0 then r == Many(c.sys, nallocs, [])
      else
        var rest := AllocMany(c.sys, node, Succ(nallocs), n - 1);
        r == More(c.answer.page, rest) && r.pages[1..] == rest.pages
  {}

  lemma OneNew(sys: System, node: int, nallocs: u32)
    requires AllGood(sys)
    ensures AllocatesNew(sys, node, nallocs, StubAlloc(sys, node, nallocs))
  {
    StubAllocStep(sys, node, nallocs);
    ServerFullIff(sys, nallocs % |sys|);
  }

  lemma {:induction false} NoRound(sys: System, node: int, nallocs: u32, n: nat, c: Call)
    requires AllGood(sys) && 0 < n && c == StubAlloc(sys, node, nallocs)
    requires AllocatesNew(sys, node, nallocs, c) && c.answer.page == 0
    ensures AllocatesMany(sys, node, nallocs, n, AllocMany(sys, node, nallocs, n))
  {
    ManyStep(sys, node, nallocs, n);
    NoneNew(sys, node, c.sys, nallocs, n);
  }

  lemma {:induction false} OneRound(sys: System, node: int, nallocs: u32, n: nat, c: Call, rest: Many, r: Many)
    requires AllGood(sys) && 0 < n && c == StubAlloc(sys, node, nallocs)
    requires AllocatesNew(sys, node, nallocs, c) && c.answer.page != 0
    requires rest == AllocMany(c.sys, node, Succ(nallocs), n - 1)
    requires AllocatesMany(c.sys, node, Succ(nallocs), n - 1, rest)
    requires r == AllocMany(sys, node, nallocs, n)
    ensures AllocatesMany(sys, node, nallocs, n, r)
  {
    ManyStep(sys, node, nallocs, n);
    MoreNew(sys, node, nallocs, n, c, rest);
  }

  /** Several allocations in a row obtain exactly the pages that the servers can give. */
  lemma {:induction false} AllocManyStep(sys: System, node: int, nallocs: u32, n: nat, r: Many)
    requires AllGood(sys) && r == AllocMany(sys, node, nallocs, n)
    ensures AllocatesMany(sys, node, nallocs, n, r)
    decreases n, 1
  {
    if n == 0 {
      NoneNew(sys, node, sys, nallocs, n);
    } else {
      var c := StubAlloc(sys, node, nallocs);
      OneNew(sys, node, nallocs);
      AllocNext(sys, node, nallocs, n, c, AllocMany(c.sys, node, Succ(nallocs), n - 1), r);
    }
  }

  lemma {:induction false} AllocNext(sys: System, node: int, nallocs: u32, n: nat, c: Call, rest: Many, r: Many)
    requires AllGood(sys) && 0 < n && c == StubAlloc(sys, node, nallocs) && AllocatesNew(sys, node, nallocs, c)
    requires rest == AllocMany(c.sys, node, Succ(nallocs), n - 1) && r == AllocMany(sys, node, nallocs, n)
    ensures AllocatesMany(sys, node, nallocs, n, r)
    decreases n, 0
  {
    if c.answer.page == 0 {
      NoRound(sys, node, nallocs, n, c);
    } else {
      RestNew(sys, node, nallocs, n, c, rest);
      OneRound(sys, node, nallocs, n, c, rest, r);
    }
  }

  lemma {:induction false} RestNew(sys: System, node: int, nallocs: u32, n: nat, c: Call, rest: Many)
    requires 0 < n && AllocatesNew(sys, node, nallocs, c) && rest == AllocMany(c.sys, node, Succ(nallocs), n - 1)
    ensures AllocatesMany(c.sys, node, Succ(nallocs), n - 1, rest)
    decreases n - 1, 2
  {
    AllocManyStep(c.sys, node, Succ(nallocs), n - 1, rest);
  }

  lemma StubFreeStep(sys: System, node: int, a: u32)
    requires AllGood(sys) && Routed(sys, a)
    ensures var c := StubFree(sys, node, a);
      && AllGood(c.sys) && |c.sys| == |sys| && c.answer.Error?
      && (c.answer.code == 0 <==> a in Global(sys) && Global(sys)[a].owner == node)
      && Global(c.sys) == if c.answer.code == 0 then Global(sys) - {a} else Global(sys)
  {
    var i := ServerOf(a);
    LiveIff(sys, a);
    if !BadAddress(a) {
      var v := Free(sys[i], node, NumOf(a));
      FreeStep(sys[i], node, NumOf(a));
      if v.reply.errcode == 0 { Removed(sys, v.s, a); } else { assert sys[i := v.s] == sys; }
    }
  }

  lemma StubReadStep(sys: System, a: u32)
    requires AllGood(sys) && Routed(sys, a)
    ensures var c := StubRead(sys, a);
      && c.sys == sys && (c.answer.Stuck? <==> Confusing(a))
      && (a in Global(sys) ==> c.answer == Moved(BLOCK_SIZE, Global(sys)[a].page))
      && (a !in Global(sys) && c.answer.Moved? ==> c.answer.size == 0)
      && (a !in Global(sys) && !c.answer.Moved? ==> c.answer.Refused? || c.answer.Stuck?)
  {
    LiveIff(sys, a);
    ReadStep(sys[ServerOf(a)], NumOf(a));
  }

  lemma StubWriteStep(sys: System, a: u32, page: Page)
    requires AllGood(sys) && Routed(sys, a)
    ensures var c := StubWrite(sys, a, page);
      && AllGood(c.sys) && |c.sys| == |sys| && (c.answer.Stuck? <==> Confusing(a))
      && (a in Global(sys) ==> c.answer == Moved(BLOCK_SIZE, page) && Global(c.sys) == Global(sys)[a := Global(sys)[a].(page := page)])
      && (a !in Global(sys) ==> Global(c.sys) == Global(sys) && (c.answer.Moved? ==> c.answer.size == 0))
      && (c.answer.Moved? || c.answer.Refused? || c.answer.Stuck?)
  {
    var i := ServerOf(a);
    LiveIff(sys, a);
    if !BadAddress(a) {
      var v := Write(sys[i], NumOf(a), page);
      WriteStep(sys[i], NumOf(a), page);
      if a in Global(sys) {
        Updated(sys, v.s, a, Global(sys)[a].(page := page));
      } else {
        SameServer(sys, i, v.s);
      }
    }
  }

  // ----- any number of clients

  /** A client: the node it runs on and its counter of successful allocations. */
  datatype Client = Client(node: int, nallocs: u32)

  datatype World = World(sys: System, clients: seq<Client>)

  datatype Op =
    | Alloc(client: nat)
    | Release(client: nat, page: u32)
    | Load(client: nat, page: u32)
    | Store(client: nat, page: u32, data: Page)

  /** Existing clients, page numbers that name an existing server, transfers that complete. */
  predicate Possible(w: World, op: Op)
  {
    && op.client < |w.clients|
    && (!op.Alloc? ==> Routed(w.sys, op.page))
    && (op.Load? || op.Store? ==> !Confusing(op.page))
  }

  datatype Step = Step(w: World, answer: Answer)

  function Exec(w: World, op: Op): Step
    requires Possible(w, op)
  {
    var me := w.clients[op.client];
    match op
    case Alloc(c) =>
      var r := StubAlloc(w.sys, me.node, me.nallocs);
      Step(World(r.sys, w.clients[c := Counted(me, r.answer)]), r.answer)
    case Release(_, a) => var r := StubFree(w.sys, me.node, a); Step(w.(sys := r.sys), r.answer)
    case Load(_, a) => var r := StubRead(w.sys, a); Step(w.(sys := r.sys), r.answer)
    case Store(_, a, data) => var r := StubWrite(w.sys, a, data); Step(w.(sys := r.sys), r.answer)
  }

  // ----- the shared memory

  /** The live pages and the clients with their counters. */
  datatype Shared = Shared(pages: Pages, clients: seq<Client>)

  ghost function Abs(w: World): Shared { Shared(Global(w.sys), w.clients) }

  /** The client's counter after an answer to an allocation. */
  function Counted(me: Client, x: Answer): Client
  {
    if x.PageNum? && x.page != 0 then me.(nallocs := Succ(me.nallocs)) else me
  }

  /** What an operation that was answered `x` does to the shared memory. */
  ghost function Effect(s: Shared, op: Op, x: Answer): Shared
  {
    if op.client >= |s.clients| then s
    else
      var me := s.clients[op.client];
      match op
      case Alloc(c) =>
        Shared(if x.PageNum? && x.page != 0 then NewPage(s.pages, me.node, x.page) else s.pages,
               s.clients[c := Counted(me, x)])
      case Release(_, a) => if x == Error(0) then s.(pages := s.pages - {a}) else s
      case Load(_, _) => s
      case Store(_, a, data) => if a in s.pages then s.(pages := s.pages[a := s.pages[a].(page := data)]) else s
  }

  /** All blocks of server `i` are among the live pages. */
  ghost predicate ServerFull(live: set<u32>, i: nat) { forall n: nat | 0 < n < 8192 :: Address(i, n) in live }

  /** Which answers are right, with `servers` servers: an allocation fails exactly when the server
      whose turn it is is full, and otherwise returns a page of that server that is not live. */
  ghost predicate Correct(servers: nat, s: Shared, op: Op, x: Answer)
    requires 0 < servers
  {
    && op.client < |s.clients|
    && var me, m := s.clients[op.client], s.pages;
    match op
    case Alloc(_) =>
      && x.PageNum?
      && (x.page == 0 <==> ServerFull(m.Keys, me.nallocs % servers))
      && (x.page != 0 ==> ServerOf(x.page) == me.nallocs % servers && x.page !in m)
    case Release(_, a) => x.Error? && (x.code == 0 <==> a in m && m[a].owner == me.node)
    case Load(_, a) => if a in m then x == Moved(BLOCK_SIZE, m[a].page) else x.Refused? || (x.Moved? && x.size == 0)
    case Store(_, a, data) => if a in m then x == Moved(BLOCK_SIZE, data) else x.Refused? || (x.Moved? && x.size == 0)
  }

  lemma ServerFullIff(sys: System, i: nat)
    requires i < |sys|
    ensures ServerFull(Global(sys).Keys, i) <==> forall n: nat | 0 < n < 8192 :: n in Contents(sys[i])
  {
    forall n: nat | 0 < n < 8192 ensures Address(i, n) in Global(sys) <==> n in Contents(sys[i]) {
      DecodeEncode(i, n);
      LiveIff(sys, Address(i, n));
    }
  }

  /** A step meets its effect on the shared memory. */
  ghost predicate Refines(w: World, op: Op, s: Step)
  {
    && AllGood(s.w.sys) && |s.w.sys| == |w.sys|
    && Correct(|w.sys|, Abs(w), op, s.answer)
    && Abs(s.w) == Effect(Abs(w), op, s.answer)
  }

  lemma AllocRefines(w: World, c: nat)
    requires AllGood(w.sys) && c < |w.clients|
    ensures Refines(w, Alloc(c), Exec(w, Alloc(c)))
  {
    var me := w.clients[c];
    StubAllocStep(w.sys, me.node, me.nallocs);
    ServerFullIff(w.sys, me.nallocs % |w.sys|);
  }

  lemma ReleaseRefines(w: World, c: nat, a: u32)
    requires AllGood(w.sys) && Possible(w, Release(c, a))
    ensures Refines(w, Release(c, a), Exec(w, Release(c, a)))
  {
    StubFreeStep(w.sys, w.clients[c].node, a);
  }

  lemma StoreRefines(w: World, c: nat, a: u32, data: Page)
    requires AllGood(w.sys) && Possible(w, Store(c, a, data))
    ensures Refines(w, Store(c, a, data), Exec(w, Store(c, a, data)))
  {
    StubWriteStep(w.sys, a, data);
  }

  lemma ExecStep(w: World, op: Op)
    requires AllGood(w.sys) && Possible(w, op)
    ensures Refines(w, op, Exec(w, op))
  {
    match op
    case Alloc(c) => AllocRefines(w, c);
    case Release(c, a) => ReleaseRefines(w, c, a);
    case Load(_, a) => StubReadStep(w.sys, a);
    case Store(c, a, data) => StoreRefines(w, c, a, data);
  }

  datatype History = History(w: World, answers: seq<Answer>)

  ghost predicate PossibleRun(w: World, ops: seq<Op>)
    decreases |ops|
  {
    ops != [] ==> Possible(w, ops[0]) && PossibleRun(Exec(w, ops[0]).w, ops[1..])
  }

  ghost function Run(w: World, ops: seq<Op>): (r: History)
    requires PossibleRun(w, ops)
    ensures |r.answers| == |ops|
    decreases |ops|
  {
    if ops == [] then History(w, [])
    else
      var s := Exec(w, ops[0]);
      var r := Run(s.w, ops[1..]);
      History(r.w, [s.answer] + r.answers)
  }

  ghost function Replay(s: Shared, ops: seq<Op>, xs: seq<Answer>): Shared
    requires |xs| == |ops|
    decreases |ops|
  {
    if ops == [] then s else Replay(Effect(s, ops[0], xs[0]), ops[1..], xs[1..])
  }

  ghost predicate AllCorrect(servers: nat, s: Shared, ops: seq<Op>, xs: seq<Answer>)
    requires |xs| == |ops| && 0 < servers
    decreases |ops|
  {
    ops != [] ==>
      Correct(servers, s, ops[0], xs[0]) && AllCorrect(servers, Effect(s, ops[0], xs[0]), ops[1..], xs[1..])
  }

  /** Over any interleaving of any clients and any number of servers, the page numbers name one
      shared memory: every page handed out is new while it lives, is always routed back to its
      server, and holds what was last written to it; an allocation fails iff its server is full. */
  lemma {:induction false} RunRefinesPages(w: World, ops: seq<Op>)
    requires AllGood(w.sys) && PossibleRun(w, ops)
    ensures var r := Run(w, ops);
      && AllGood(r.w.sys)
      && AllCorrect(|w.sys|, Abs(w), ops, r.answers)
      && Abs(r.w) == Replay(Abs(w), ops, r.answers)
    decreases |ops|
  {
    if ops != [] {
      var s := Exec(w, ops[0]);
      ExecStep(w, ops[0]);
      RunRefinesPages(s.w, ops[1..]);
      assert Run(w, ops).answers[1..] == Run(s.w, ops[1..]).answers;
    }
  }

  /** After start-up no page is live. */
  lemma StartupEmpty(n: nat)
    requires 1 <= n <= 256
    ensures var sys: System := seq(n, _ => Startup()); AllGood(sys) && Global(sys) == map[]
  {
    StartupGood();
    var sys: System := seq(n, _ => Startup());
    forall a: u32 ensures !LivePage(sys, a) { assert Contents(Startup()) == map[]; }
  }
}
