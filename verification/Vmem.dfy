/**
  Virtual memory over remote memory: the page cache under its bypass policy
  (src/libruntime/mm/cache.c) and the memory manager (src/libruntime/mm/manager.c): what each call of
  one client does to the flat memory the client sees, and what it leaves alone for others.
 */
module Vmem {
  import opened Disk
  import opened RmemServer
  import opened RmemStub

  /** RMEM_TABLE_LENGTH. */
  const TABLE := 1024

  const ENOENT := -2

  datatype Line = Line(pgnum: u32, refcount: int, page: Page)

  /** One client: the remote memory it reaches, its node and allocation counter, its cache lines, its
      table of remote pages, and its break. */
  datatype Space = Space(sys: System, node: int, nallocs: u32, lines: seq<Line>, table: seq<u32>, rbrk: nat)

  predicate Sized(m: Space) { 0 < |m.lines| && |m.table| == 1024 }

  // ----- the page cache

  /** nanvix_rcache_page_search(), from line `i` on: the number of lines if there is none. */
  function SearchLine(lines: seq<Line>, pgnum: u32, i: nat): (r: nat)
    requires i <= |lines|
    ensures i <= r <= |lines|
    ensures r < |lines| ==> lines[r].refcount != 0 && lines[r].pgnum == pgnum
    ensures forall j: nat | i <= j < r :: !(lines[j].refcount != 0 && lines[j].pgnum == pgnum)
    decreases |lines| - i
  {
    if i == |lines| || (lines[i].refcount != 0 && lines[i].pgnum == pgnum) then i
    else SearchLine(lines, pgnum, i + 1)
  }

  /** nanvix_rcache_flush() of line `i`: what nanvix_rmem_write() returns is never negative, so a
      failure goes unnoticed. */
  function FlushLine(m: Space, i: nat): Space
    requires i < |m.lines| && Routed(m.sys, m.lines[i].pgnum)
  {
    m.(sys := StubWrite(m.sys, m.lines[i].pgnum, m.lines[i].page).sys)
  }

  /** nanvix_rcache_bypass(): line 0 is written back and emptied. */
  function Bypass(m: Space): Space
    requires 0 < |m.lines| && Routed(m.sys, m.lines[0].pgnum)
  {
    var f := FlushLine(m, 0);
    f.(lines := f.lines[0 := f.lines[0].(refcount := 0, pgnum := 0)])
  }

  /** The page that nanvix_rmem_read() leaves in a buffer that held `before`. */
  function Received(x: Answer, before: Page): Page
  {
    match x
    case Moved(_, data) => data
    case _ => before
  }

  datatype Got = Got(m: Space, line: int)

  /** nanvix_rcache_get() under the bypass policy: -1 stands for the null pointer. */
  function GetPage(m: Space, pgnum: u32): Got
    requires Sized(m) && Routed(m.sys, m.lines[0].pgnum) && Routed(m.sys, pgnum)
  {
    if pgnum == 0 then Got(m, -1)
    else
      var i := SearchLine(m.lines, pgnum, 0);
      if i < |m.lines| then
        Got(m.(lines := m.lines[i := m.lines[i].(refcount := m.lines[i].refcount + 1)]), i)
      else
        var b := Bypass(m);
        var page := Received(StubRead(b.sys, pgnum).answer, b.lines[0].page);
        Got(b.(lines := b.lines[0 := Line(pgnum, b.lines[0].refcount + 1, page)]), 0)
  }

  /** nanvix_rcache_put(). */
  function PutPage(m: Space, pgnum: u32): (Space, int)
    requires Sized(m) && Routed(m.sys, pgnum)
  {
    if pgnum == 0 then (m, EINVAL)
    else
      var i := SearchLine(m.lines, pgnum, 0);
      if i == |m.lines| then (m, ENOENT)
      else
        var n := m.(lines := m.lines[i := m.lines[i].(refcount := m.lines[i].refcount - 1)]);
        (if m.lines[i].refcount == 1 then FlushLine(n, i) else n, 0)
  }

  // ----- the memory manager

  /** An address relative to the base of the user area: RADDR() and RADDR_INV(). */
  function PageIndex(ptr: nat): nat { ptr / 4096 }

  function PageOffset(ptr: nat): nat { ptr % 4096 }

  /** nanvix_vmem_lookup(): 0, or a negative code. */
  function LookupPage(m: Space, ptr: nat): int
    requires Sized(m)
  {
    if ptr == 0 then EFAULT
    else if PageIndex(ptr) >= TABLE then EINVAL
    else if m.table[PageIndex(ptr)] == 0 then EFAULT
    else 0
  }

  /** nanvix_vmem_read() and nanvix_vmem_write() accept the request. */
  predicate Accepted(m: Space, ptr: nat, n: nat)
    requires Sized(m)
  {
    n != 0 && LookupPage(m, ptr) == 0 && n <= BLOCK_SIZE && PageOffset(ptr) + n <= BLOCK_SIZE
  }

  datatype Transfer = Transfer(m: Space, n: nat, data: Image)

  /** Every page the client knows about leads to a server. */
  ghost predicate Reaches(m: Space)
  {
    Sized(m) && Routed(m.sys, m.lines[0].pgnum) && forall b: nat | b < 1024 :: Routed(m.sys, m.table[b])
  }

  /** nanvix_vmem_read(): the number of bytes read and the bytes. */
  ghost function ReadBytes(m: Space, ptr: nat, n: nat): Transfer
    requires Reaches(m)
  {
    if !Accepted(m, ptr, n) then Transfer(m, 0, [])
    else
      var g := GetPage(m, m.table[PageIndex(ptr)]);
      if !(0 <= g.line < |g.m.lines|) then Transfer(g.m, 0, [])
      else Transfer(g.m, n, g.m.lines[g.line].page[PageOffset(ptr)..PageOffset(ptr) + n])
  }

  /** nanvix_vmem_write(): the page stays in the cache. */
  ghost function WriteBytes(m: Space, ptr: nat, buf: Image): Transfer
    requires Reaches(m)
  {
    if !Accepted(m, ptr, |buf|) then Transfer(m, 0, [])
    else
      var g := GetPage(m, m.table[PageIndex(ptr)]);
      if !(0 <= g.line < |g.m.lines|) then Transfer(g.m, 0, [])
      else
        var line := g.m.lines[g.line];
        Transfer(g.m.(lines := g.m.lines[g.line := line.(page := Splice(line.page, PageOffset(ptr), buf))]), |buf|, [])
  }

  /** The table after `pages` were entered from index `base` on. */
  function Entered(table: seq<u32>, base: nat, pages: seq<u32>): (t: seq<u32>)
    requires base + |pages| <= |table|
    ensures |t| == |table|
    decreases |pages|
  {
    if pages == [] then table else Entered(table[base := pages[0]], base + 1, pages[1..])
  }

  datatype Alloced = Alloced(m: Space, ret: int, pages: seq<u32>)

  /** nanvix_vmem_alloc(): the index of the first page, or -1 for the null pointer, and the pages
      obtained. The break stays raised, and the pages obtained so far stay in the table, when an allocation fails midway. */
  function AllocMem(m: Space, n: nat): Alloced
    requires Sized(m)
  {
    if n == 0 || m.rbrk + n >= TABLE then Alloced(m, -1, [])
    else AllocedFrom(m, n, AllocMany(m.sys, m.node, m.nallocs, n))
  }

  /** The client after the allocation loop obtained the pages of `r`. */
  function AllocedFrom(m: Space, n: nat, r: Many): Alloced
    requires Sized(m) && m.rbrk + |r.pages| <= 1024
  {
    Alloced(m.(sys := r.sys, nallocs := r.nallocs, table := Entered(m.table, m.rbrk, r.pages), rbrk := m.rbrk + n),
            if |r.pages| == n then m.rbrk else -1,
            r.pages)
  }

  /** Every entry of the table leads to a server. */
  predicate TableRouted(m: Space)
  {
    Sized(m) && forall b: nat | b < 1024 :: Routed(m.sys, m.table[b])
  }

  datatype Freed = Freed(m: Space, answer: Answer)

  predicate Fails(x: Answer) { !(x.Error? && x.code >= 0) }

  /** One round of the loop of nanvix_vmem_free(): nanvix_rcache_free() of an entry, which is emptied
      if that succeeds. */
  function FreeEntry(m: Space, i: nat): (f: Freed)
    requires TableRouted(m) && i < 1024
    ensures TableRouted(f.m) && f.m.rbrk == m.rbrk
  {
    if m.table[i] == 0 then Freed(m, Error(EINVAL))
    else
      var c := StubFree(m.sys, m.node, m.table[i]);
      assert |c.sys| == |m.sys| && Routed(c.sys, 0);
      if Fails(c.answer) then Freed(m.(sys := c.sys), c.answer)
      else Freed(m.(sys := c.sys, table := m.table[i := 0]), c.answer)
  }

  /** The loop, from index `i` to the break: a failure leaves the entries already emptied. */
  function FreeRange(m: Space, i: nat): (f: Freed)
    requires TableRouted(m) && m.rbrk <= 1024
    ensures TableRouted(f.m) && f.m.rbrk == m.rbrk
    decreases m.rbrk - i
  {
    if i >= m.rbrk then Freed(m, Error(0))
    else
      var f := FreeEntry(m, i);
      if Fails(f.answer) then f else FreeRange(f.m, i + 1)
  }

  /** nanvix_vmem_free(): everything from an address to the break. The difference of the break and the
      index is unsigned, and nanvix_vmem_contract() refuses it when it is negative as a signed number
      or would take the break to 0. */
  function FreeMem(m: Space, ptr: nat): Freed
    requires TableRouted(m) && m.rbrk <= 1024
  {
    var base := PageIndex(ptr);
    if LookupPage(m, ptr) < 0 then Freed(m, Error(LookupPage(m, ptr)))
    else if m.rbrk == base then Freed(m, Error(EFAULT))
    else if m.rbrk < base then Freed(m, Error(EINVAL))
    else
      var f := FreeRange(m, base);
      if Fails(f.answer) then f
      else if base < 1 then Freed(f.m, Error(EINVAL))
      else Freed(f.m.(rbrk := base), Error(0))
  }

  // ----- the invariant

  ghost predicate LinesOk(m: Space, g: Pages)
  {
    && 0 < |m.lines|
    && (forall i: nat | 0 < i < |m.lines| :: m.lines[i].refcount == 0)
    && m.lines[0].refcount >= 0
    && (m.lines[0].refcount > 0 ==> m.lines[0].pgnum != 0)
    && (m.lines[0].pgnum != 0 ==> m.lines[0].pgnum in g)
    && (m.lines[0].pgnum != 0 && m.lines[0].refcount == 0 ==> m.lines[0].page == g[m.lines[0].pgnum].page)
  }

  ghost predicate TableOk(m: Space, g: Pages)
  {
    && |m.table| == 1024 && 1 <= m.rbrk < 1024
    && (forall b: nat | b < 1024 && m.table[b] != 0 ::
          1 <= b < m.rbrk && m.table[b] in g && g[m.table[b]].owner == m.node)
    && (forall b: nat, c: nat | b < 1024 && c < 1024 && m.table[b] == m.table[c] != 0 :: b == c)
  }

  /** The cached page is one of the table. */
  ghost predicate OwnLine(m: Space)
  {
    0 < |m.lines| && (m.lines[0].pgnum == 0 || m.lines[0].pgnum in m.table)
  }

  /** Only line 0 is in use; the cached page is one of the table; all pages of the table are live in
      `g` and owned by the client; no page is in the table twice; a released line equals its remote
      page. */
  ghost predicate SoundOver(m: Space, g: Pages)
  {
    LinesOk(m, g) && TableOk(m, g) && OwnLine(m)
  }

  ghost predicate Sound(m: Space)
  {
    AllGood(m.sys) && SoundOver(m, Global(m.sys))
  }

  /** A live page as the client sees it: the cached copy if there is one. */
  ghost function Seen(m: Space, g: Pages, p: u32): Page
    requires 0 < |m.lines| && p in g
  {
    if m.lines[0].pgnum == p then m.lines[0].page else g[p].page
  }

  /** The flat memory: the contents of every mapped page. */
  ghost function FlatOver(m: Space, g: Pages): map<nat, Page>
    requires SoundOver(m, g)
  {
    map b: nat | b < 1024 && m.table[b] != 0 :: Seen(m, g, m.table[b])
  }

  ghost function Flat(m: Space): map<nat, Page>
    requires Sound(m)
  {
    FlatOver(m, Global(m.sys))
  }

  lemma LiveRouted(sys: System, a: u32)
    requires a in Global(sys)
    ensures Routed(sys, a)
  {
    GlobalAt(sys, a);
    assert Global(sys)[a] in Look(Global(sys), a);
  }

  lemma SoundReaches(m: Space)
    requires Sound(m)
    ensures Reaches(m)
  {
    assert Routed(m.sys, 0);
    if m.lines[0].pgnum != 0 { LiveRouted(m.sys, m.lines[0].pgnum); }
    forall b: nat | b < 1024 ensures Routed(m.sys, m.table[b]) {
      if m.table[b] != 0 { LiveRouted(m.sys, m.table[b]); }
    }
  }

  // ----- one cache operation

  /** What others see: pages that are not in the client's table stay as they are, and a page that
      enters its table was not live. */
  ghost predicate Frame(m: Space, g: Pages, m': Space, g': Pages)
  {
    && |m'.sys| == |m.sys| && m'.node == m.node
    && (forall p: u32 | p in g && p !in m.table :: p in g' && g'[p] == g[p])
    && (forall p: u32 | p in m'.table && p != 0 :: p in m.table || p !in g)
  }

  /** Table, break and counter stay, and so do the live pages; others see no change. */
  ghost predicate CalmOver(m: Space, g: Pages, m': Space, g': Pages)
  {
    && m'.table == m.table && m'.rbrk == m.rbrk && m'.nallocs == m.nallocs
    && g'.Keys == g.Keys && Frame(m, g, m', g')
  }

  ghost predicate Calm(m: Space, m': Space) { CalmOver(m, Global(m.sys), m', Global(m'.sys)) }

  /** The client sees the same live pages, with the same contents. */
  ghost predicate SameSight(m: Space, g: Pages, m': Space, g': Pages)
  {
    && OwnLine(m) && OwnLine(m') && CalmOver(m, g, m', g')
    && forall p: u32 | p in g :: p in g' && Seen(m', g', p) == Seen(m, g, p) && g'[p].owner == g[p].owner
  }

  lemma SameFlat(m: Space, g: Pages, m': Space, g': Pages)
    requires SoundOver(m, g) && LinesOk(m', g') && SameSight(m, g, m', g')
    ensures SoundOver(m', g') && FlatOver(m', g') == FlatOver(m, g)
  {}

  /** Writing a line back to its live page makes the remote page equal to it. */
  lemma FlushStep(m: Space, i: nat)
    requires AllGood(m.sys) && i < |m.lines| && (m.lines[i].pgnum != 0 ==> m.lines[i].pgnum in Global(m.sys))
    ensures Routed(m.sys, m.lines[i].pgnum)
    ensures var f, p := FlushLine(m, i), m.lines[i].pgnum;
      && AllGood(f.sys) && |f.sys| == |m.sys| && f == m.(sys := f.sys)
      && (p == 0 ==> Global(f.sys) == Global(m.sys))
      && (p != 0 ==> Global(f.sys) == Global(m.sys)[p := Global(m.sys)[p].(page := m.lines[i].page)])
  {
    var p := m.lines[i].pgnum;
    assert Routed(m.sys, 0);
    if p != 0 {
      LiveRouted(m.sys, p);
      StubWriteStep(m.sys, p, m.lines[i].page);
    }
  }

  lemma {:induction false} OnlyLineZero(m: Space, g: Pages, p: u32)
    requires LinesOk(m, g)
    ensures SearchLine(m.lines, p, 0) == if m.lines[0].refcount != 0 && m.lines[0].pgnum == p then 0 else |m.lines|
  {
    var i := SearchLine(m.lines, p, 0);
    assert i < |m.lines| ==> m.lines[i].refcount != 0;
  }

  /** The line is in the cache, and held. */
  ghost predicate Loaded(m: Space, p: u32)
  {
    0 < |m.lines| && m.lines[0].pgnum == p && m.lines[0].refcount > 0
  }

  /** The holders of page `p` after it was loaded once more. */
  ghost function Holders(m: Space, p: u32): int
    requires 0 < |m.lines|
  {
    if Loaded(m, p) then m.lines[0].refcount + 1 else 1
  }

  lemma GetHit(m: Space, p: u32)
    requires Sound(m) && p in m.table && p != 0 && Loaded(m, p)
    ensures Reaches(m) && Routed(m.sys, p)
    ensures var r := GetPage(m, p);
      && r.line == 0 && Loaded(r.m, p) && AllGood(r.m.sys)
      && LinesOk(r.m, Global(r.m.sys)) && r.m.lines[0].refcount == Holders(m, p) && SameSight(m, Global(m.sys), r.m, Global(r.m.sys))
  {
    SoundReaches(m);
    LiveRouted(m.sys, p);
    OnlyLineZero(m, Global(m.sys), p);
  }

  lemma GetMiss(m: Space, p: u32)
    requires Sound(m) && p in m.table && p != 0 && !Loaded(m, p)
    ensures Reaches(m) && Routed(m.sys, p)
    ensures var r := GetPage(m, p);
      && r.line == 0 && Loaded(r.m, p) && AllGood(r.m.sys)
      && LinesOk(r.m, Global(r.m.sys)) && r.m.lines[0].refcount == Holders(m, p) && SameSight(m, Global(m.sys), r.m, Global(r.m.sys))
  {
    SoundReaches(m);
    LiveRouted(m.sys, p);
    OnlyLineZero(m, Global(m.sys), p);
    BypassStep(m);
    MissFrom(m, p, Bypass(m), GetPage(m, p));
  }

  lemma {:induction false} MissFrom(m: Space, p: u32, b: Space, r: Got)
    requires Sound(m) && p in m.table && p != 0 && !Loaded(m, p) && SearchLine(m.lines, p, 0) == |m.lines|
    requires Reaches(m) && Routed(m.sys, p) && b == Bypass(m) && r == GetPage(m, p)
    requires AllGood(b.sys) && Emptied(m, Global(m.sys), b, Global(b.sys))
    ensures r.line == 0 && Loaded(r.m, p) && AllGood(r.m.sys)
    ensures LinesOk(r.m, Global(r.m.sys)) && r.m.lines[0].refcount == Holders(m, p) && SameSight(m, Global(m.sys), r.m, Global(r.m.sys))
  {
    Refetched(m, p, b);
    NullNotLive(m.sys);
    ReloadStep(m, Global(m.sys), b, Global(b.sys), p);
  }

  /** What a miss reads into the emptied line. */
  lemma {:induction false} Refetched(m: Space, p: u32, b: Space)
    requires Reaches(m) && Routed(m.sys, p) && p != 0 && SearchLine(m.lines, p, 0) == |m.lines|
    requires b == Bypass(m) && AllGood(b.sys) && p in Global(b.sys) && b.lines[0].refcount == 0
    ensures GetPage(m, p) == Got(Reloaded(b, p, Global(b.sys)[p].page), 0)
  {
    LiveRouted(b.sys, p);
    StubReadStep(b.sys, p);
  }

  /** The emptied line 0 after page `p` was read into it. */
  function Reloaded(b: Space, p: u32, page: Page): Space
    requires 0 < |b.lines|
  {
    b.(lines := b.lines[0 := Line(p, 1, page)])
  }

  /** `b` is `m` with line 0 emptied and `g'` the remote pages after it was written back. */
  ghost predicate Emptied(m: Space, g: Pages, b: Space, g': Pages)
  {
    && 0 < |m.lines|
    && b == m.(sys := b.sys, lines := m.lines[0 := Line(0, 0, m.lines[0].page)]) && |b.sys| == |m.sys|
    && g'.Keys == g.Keys && forall q: u32 | q in g :: q in g' && g'[q] == g[q].(page := Seen(m, g, q))
  }

  lemma ReloadStep(m: Space, g: Pages, b: Space, g': Pages, p: u32)
    requires SoundOver(m, g) && Emptied(m, g, b, g') && p in m.table && p in g && p != 0 && 0 !in g
    ensures var r := Reloaded(b, p, g'[p].page); LinesOk(r, g') && SameSight(m, g, r, g')
  {}

  lemma NullNotLive(sys: System)
    ensures 0 !in Global(sys)
  {}

  /** After the bypass eviction the remote pages are all the client sees. */
  lemma BypassStep(m: Space)
    requires Sound(m)
    ensures Reaches(m)
    ensures AllGood(Bypass(m).sys) && Emptied(m, Global(m.sys), Bypass(m), Global(Bypass(m).sys))
  {
    SoundReaches(m);
    NullNotLive(m.sys);
    FlushStep(m, 0);
    EmptiedBy(m, Global(m.sys), Bypass(m), Global(Bypass(m).sys));
  }

  lemma EmptiedBy(m: Space, g: Pages, b: Space, g': Pages)
    requires SoundOver(m, g) && |b.sys| == |m.sys|
    requires b == m.(sys := b.sys, lines := m.lines[0 := Line(0, 0, m.lines[0].page)])
    requires var p := m.lines[0].pgnum; if p == 0 then g' == g else g' == g[p := g[p].(page := m.lines[0].page)]
    requires 0 !in g
    ensures Emptied(m, g, b, g')
  {}

  /** nanvix_rcache_get() of a live page: although the one line may have to be written back and
      reloaded, the client sees every page as before. */
  lemma GetStep(m: Space, p: u32)
    requires Sound(m) && p in m.table && p != 0
    ensures Reaches(m) && Routed(m.sys, p) && p in Global(m.sys)
    ensures var r := GetPage(m, p);
      && r.line == 0 && Loaded(r.m, p) && Sound(r.m) && Flat(r.m) == Flat(m) && Calm(m, r.m)
      && r.m.lines[0].page == Seen(m, Global(m.sys), p) && r.m.lines[0].refcount == Holders(m, p)
  {
    if Loaded(m, p) { GetHit(m, p); } else { GetMiss(m, p); }
    var r := GetPage(m, p);
    SameFlat(m, Global(m.sys), r.m, Global(r.m.sys));
    assert Seen(r.m, Global(r.m.sys), p) == Seen(m, Global(m.sys), p);
  }

  /** nanvix_rcache_put() never changes what the client sees. */
  lemma PutStep(m: Space, p: u32)
    requires Sound(m) && Routed(m.sys, p)
    ensures var r := PutPage(m, p);
      && Sound(r.0) && Flat(r.0) == Flat(m) && Calm(m, r.0)
      && r.1 == (if p == 0 then EINVAL else if Loaded(m, p) then 0 else ENOENT)
      && r.0.lines[0].pgnum == m.lines[0].pgnum
      && r.0.lines[0].refcount == m.lines[0].refcount - if r.1 == 0 then 1 else 0
  {
    OnlyLineZero(m, Global(m.sys), p);
    if p != 0 && Loaded(m, p) {
      if m.lines[0].refcount == 1 { LastPut(m); } else { EarlyPut(m); }
    }
  }

  /** One holder fewer of line 0. */
  function Dropped(m: Space): Space
    requires 0 < |m.lines|
  {
    m.(lines := m.lines[0 := m.lines[0].(refcount := m.lines[0].refcount - 1)])
  }

  lemma EarlyPut(m: Space)
    requires Sound(m) && m.lines[0].refcount > 1
    ensures Sound(Dropped(m)) && Flat(Dropped(m)) == Flat(m) && Calm(m, Dropped(m))
  {
    SameFlat(m, Global(m.sys), Dropped(m), Global(m.sys));
  }

  lemma LastPut(m: Space)
    requires Sound(m) && m.lines[0].refcount == 1
    ensures Routed(m.sys, m.lines[0].pgnum)
    ensures var f := FlushLine(Dropped(m), 0); Sound(f) && Flat(f) == Flat(m) && Calm(m, f)
  {
    FlushStep(Dropped(m), 0);
    var f := FlushLine(Dropped(m), 0);
    FlushedSight(m, Global(m.sys), f, Global(f.sys));
    SameFlat(m, Global(m.sys), f, Global(f.sys));
  }

  lemma FlushedSight(m: Space, g: Pages, f: Space, g': Pages)
    requires SoundOver(m, g) && m.lines[0].refcount == 1 && f == Dropped(m).(sys := f.sys) && |f.sys| == |m.sys|
    requires var p := m.lines[0].pgnum; g' == g[p := g[p].(page := m.lines[0].page)]
    ensures LinesOk(f, g') && SameSight(m, g, f, g')
  {}

  // ----- reading and writing

  /** A request that lies within one mapped page. */
  predicate Inside(f: map<nat, Page>, ptr: nat, n: nat)
  {
    0 < n && PageIndex(ptr) in f && PageOffset(ptr) + n <= 4096
  }

  lemma AcceptedIff(m: Space, ptr: nat, n: nat)
    requires Sound(m)
    ensures Accepted(m, ptr, n) <==> Inside(Flat(m), ptr, n)
  {
    assert PageIndex(ptr) in Flat(m) ==> PageIndex(ptr) >= 1;
  }

  /** The cached page is that of table entry `b`. */
  ghost predicate Caches(m: Space, b: nat)
  {
    0 < |m.lines| && b < |m.table| && m.lines[0].pgnum == m.table[b] != 0
  }

  /** nanvix_vmem_read() returns the bytes of the flat memory, or refuses. */
  lemma ReadStep(m: Space, ptr: nat, n: nat)
    requires Sound(m)
    ensures Reaches(m)
    ensures var r := ReadBytes(m, ptr, n);
      && Sound(r.m) && Flat(r.m) == Flat(m) && Calm(m, r.m)
      && (if Inside(Flat(m), ptr, n)
          then
            && Caches(r.m, PageIndex(ptr)) && r.m.lines[0].refcount == Holders(m, m.table[PageIndex(ptr)])
            && r.n == n && r.data == Flat(m)[PageIndex(ptr)][PageOffset(ptr)..PageOffset(ptr) + n]
          else r == Transfer(m, 0, []))
  {
    SoundReaches(m);
    AcceptedIff(m, ptr, n);
    if Accepted(m, ptr, n) { GetStep(m, m.table[PageIndex(ptr)]); }
  }

  /** The flat memory after bytes were stored at an address. */
  ghost function Stored(f: map<nat, Page>, ptr: nat, buf: Image): map<nat, Page>
    requires PageIndex(ptr) in f && PageOffset(ptr) + |buf| <= 4096
  {
    f[PageIndex(ptr) := Splice(f[PageIndex(ptr)], PageOffset(ptr), buf)]
  }

  /** Line 0 with new contents. */
  function Touched(m: Space, page: Page): Space
    requires 0 < |m.lines|
  {
    m.(lines := m.lines[0 := m.lines[0].(page := page)])
  }

  lemma TouchedFlat(m: Space, g: Pages, b: nat, page: Page)
    requires SoundOver(m, g) && b < 1024 && m.table[b] != 0 && Loaded(m, m.table[b])
    ensures SoundOver(Touched(m, page), g) && FlatOver(Touched(m, page), g) == FlatOver(m, g)[b := page]
  {}

  /** nanvix_vmem_write() stores the bytes in the flat memory, or refuses. */
  lemma WriteStep(m: Space, ptr: nat, buf: Image)
    requires Sound(m)
    ensures Reaches(m)
    ensures var r := WriteBytes(m, ptr, buf);
      && Sound(r.m) && Calm(m, r.m)
      && (if Inside(Flat(m), ptr, |buf|)
          then
            && Caches(r.m, PageIndex(ptr)) && r.m.lines[0].refcount == Holders(m, m.table[PageIndex(ptr)])
            && r.n == |buf| && Flat(r.m) == Stored(Flat(m), ptr, buf)
          else r == Transfer(m, 0, []))
  {
    SoundReaches(m);
    AcceptedIff(m, ptr, |buf|);
    if Accepted(m, ptr, |buf|) {
      var b := PageIndex(ptr);
      GetStep(m, m.table[b]);
      var r := GetPage(m, m.table[b]).m;
      TouchedFlat(r, Global(r.sys), b, Splice(r.lines[0].page, PageOffset(ptr), buf));
    }
  }

  // ----- allocation

  /** The flat memory with the pages from `lo` to `hi` cleared. */
  ghost function Cleared(f: map<nat, Page>, lo: nat, hi: nat): map<nat, Page>
    decreases hi - lo
  {
    if hi <= lo then f else Cleared(f[lo := ZeroPage()], lo + 1, hi)
  }

  ghost predicate IsCleared(f: map<nat, Page>, lo: nat, hi: nat, f': map<nat, Page>) { f' == Cleared(f, lo, hi) }

  ghost function Members(ps: seq<u32>): set<u32> { set p | p in ps }

  ghost predicate NowLive(live: set<u32>, ps: seq<u32>, live': set<u32>) { live' == live + Members(ps) }

  lemma EnterOne(m: Space, g: Pages, b: nat, p: u32)
    requires SoundOver(m, g) && 1 <= b < m.rbrk && m.table[b] == 0 && p != 0 && p !in g
    ensures SoundOver(m.(table := m.table[b := p]), NewPage(g, m.node, p))
  {
    if m.lines[0].pgnum != 0 {
      var c: nat :| c < |m.table| && m.table[c] == m.lines[0].pgnum;
      assert m.table[b := p][c] == m.lines[0].pgnum;
    }
  }

  lemma EnterOneFlat(m: Space, g: Pages, b: nat, p: u32)
    requires SoundOver(m, g) && 1 <= b < m.rbrk && m.table[b] == 0 && p != 0 && p !in g
    requires SoundOver(m.(table := m.table[b := p]), NewPage(g, m.node, p))
    ensures FlatOver(m.(table := m.table[b := p]), NewPage(g, m.node, p)) == FlatOver(m, g)[b := ZeroPage()]
  {}

  /** Entering new pages in empty places of the table clears those pages of the flat memory. */
  lemma {:induction false} EnterStep(m: Space, g: Pages, base: nat, ps: seq<u32>, g': Pages, m': Space)
    requires SoundOver(m, g) && 1 <= base && base + |ps| <= m.rbrk && Grows(g, m.node, ps, g')
    requires forall b: nat | base <= b < base + |ps| :: m.table[b] == 0
    requires m' == m.(table := Entered(m.table, base, ps))
    ensures SoundOver(m', g') && IsCleared(FlatOver(m, g), base, base + |ps|, FlatOver(m', g'))
    decreases |ps|
  {
    if ps != [] {
      EnterOne(m, g, base, ps[0]);
      EnterOneFlat(m, g, base, ps[0]);
      EnterStep(m.(table := m.table[base := ps[0]]), NewPage(g, m.node, ps[0]), base + 1, ps[1..], g', m');
    }
  }

  /** Allocations leave all live pages as they are. */
  lemma {:induction false} GrowsKeeps(g: Pages, node: int, ps: seq<u32>, g': Pages)
    requires Grows(g, node, ps, g')
    ensures NowLive(g.Keys, ps, g'.Keys)
    ensures forall p: u32 | p in g :: p in g' && g'[p] == g[p]
    ensures forall p: u32 | p in ps :: p !in g
    decreases |ps|
  {
    if ps != [] {
      GrowsKeeps(NewPage(g, node, ps[0]), node, ps[1..], g');
      assert forall p: u32 :: p in ps <==> p == ps[0] || p in ps[1..];
      assert Members(ps) == {ps[0]} + Members(ps[1..]);
    }
  }

  lemma {:induction false} EnteredHolds(t: seq<u32>, base: nat, ps: seq<u32>)
    requires base + |ps| <= |t|
    ensures forall p: u32 | p in Entered(t, base, ps) :: p in t || p in ps
    decreases |ps|
  {
    if ps != [] {
      EnteredHolds(t[base := ps[0]], base + 1, ps[1..]);
      assert forall p: u32 | p in t[base := ps[0]] :: p in t || p == ps[0];
    }
  }

  ghost predicate IsEntered(t: seq<u32>, base: nat, ps: seq<u32>, t': seq<u32>)
  {
    base + |ps| <= |t| && t' == Entered(t, base, ps)
  }

  /** The client after an allocation obtained the pages `ps`. */
  ghost predicate Extended(m: Space, ps: seq<u32>, brk: nat, m': Space)
  {
    && |m.table| == 1024 && m.rbrk + |ps| <= brk < 1024 && IsEntered(m.table, m.rbrk, ps, m'.table)
    && m' == m.(sys := m'.sys, nallocs := m'.nallocs, table := m'.table, rbrk := brk)
  }

  /** New pages in empty places of the table clear those pages of the flat memory; others see nothing
      of it. */
  lemma {:induction false} AllocStepFrom(m: Space, g: Pages, ps: seq<u32>, brk: nat, m': Space, g': Pages)
    requires Sound(m) && AllGood(m'.sys) && g == Global(m.sys) && g' == Global(m'.sys)
    requires Extended(m, ps, brk, m') && Grows(g, m.node, ps, g') && |m'.sys| == |m.sys|
    ensures Sound(m') && IsCleared(Flat(m), m.rbrk, m.rbrk + |ps|, Flat(m')) && Frame(m, g, m', g')
    ensures NowLive(g.Keys, ps, g'.Keys)
  {
    ExtendedOver(m, g, ps, brk, m', g');
    ExtendedFrame(m, g, ps, brk, m', g');
  }

  lemma {:induction false} ExtendedFrame(m: Space, g: Pages, ps: seq<u32>, brk: nat, m': Space, g': Pages)
    requires Extended(m, ps, brk, m') && Grows(g, m.node, ps, g') && |m'.sys| == |m.sys|
    ensures Frame(m, g, m', g') && NowLive(g.Keys, ps, g'.Keys)
  {
    GrowsKeeps(g, m.node, ps, g');
    EnteredHolds(m.table, m.rbrk, ps);
  }

  lemma {:induction false} ExtendedOver(m: Space, g: Pages, ps: seq<u32>, brk: nat, m': Space, g': Pages)
    requires SoundOver(m, g) && Extended(m, ps, brk, m') && Grows(g, m.node, ps, g')
    ensures SoundOver(m', g') && IsCleared(FlatOver(m, g), m.rbrk, m.rbrk + |ps|, FlatOver(m', g'))
  {
    var up := m.(sys := m'.sys, nallocs := m'.nallocs, rbrk := brk);
    RaiseBreak(m, g, brk, up);
    EnterStep(up, g, m.rbrk, ps, g', m');
  }

  lemma RaiseBreak(m: Space, g: Pages, brk: nat, up: Space)
    requires SoundOver(m, g) && m.rbrk <= brk < 1024 && up == m.(sys := up.sys, nallocs := up.nallocs, rbrk := brk)
    ensures SoundOver(up, g) && FlatOver(up, g) == FlatOver(m, g)
    ensures forall b: nat | m.rbrk <= b < brk :: m.table[b] == 0
  {}

  lemma BelowBreak(m: Space)
    requires Sound(m)
    ensures forall b: nat | b in Flat(m) :: b < m.rbrk
  {}

  // ----- frees

  /** The end of the mapped pages from `b` on, below the break. */
  ghost function End(f: map<nat, Page>, b: nat, brk: nat): (e: nat)
    ensures b <= brk ==> b <= e <= brk
    ensures forall c: nat | b <= c < e :: c in f
    ensures e < brk ==> e !in f
    decreases brk - b
  {
    if b < brk && b in f then End(f, b + 1, brk) else b
  }

  /** The same over the table. */
  ghost function EndOf(t: seq<u32>, b: nat, brk: nat): (e: nat)
    requires brk <= |t|
    ensures b <= brk ==> b <= e <= brk
    ensures forall c: nat | b <= c < e :: c < |t| && t[c] != 0
    ensures e < brk ==> t[e] == 0
    decreases brk - b
  {
    if b < brk && t[b] != 0 then EndOf(t, b + 1, brk) else b
  }

  lemma {:induction false} EndIs(f: map<nat, Page>, t: seq<u32>, b: nat, brk: nat)
    requires b <= brk <= |t| && forall c: nat | c < brk :: c in f <==> t[c] != 0
    ensures End(f, b, brk) == EndOf(t, b, brk)
  {}

  lemma {:induction false} EndSame(t: seq<u32>, t': seq<u32>, b: nat, brk: nat)
    requires b <= brk <= |t| == |t'| && forall c: nat | b <= c < brk :: t'[c] == t[c]
    ensures EndOf(t, b, brk) == EndOf(t', b, brk)
  {}

  /** The table with the entries from `lo` to `hi` emptied, and the pages that were there. */
  ghost function Nulled(t: seq<u32>, lo: nat, hi: nat): (r: seq<u32>)
    ensures |r| == |t|
  {
    seq(|t|, b requires 0 <= b < |t| => if lo <= b < hi then 0 else t[b])
  }

  ghost function PagesAt(t: seq<u32>, lo: nat, hi: nat): set<u32>
  {
    set b: nat | lo <= b < hi && b < |t| :: t[b]
  }

  /** `m'` is `m` after the entries from `lo` to `hi` were freed, with the remote pages before and
      after. */
  ghost predicate RangeFreed(m: Space, g: Pages, m': Space, g': Pages, lo: nat, hi: nat)
  {
    && m' == m.(sys := m'.sys, table := Nulled(m.table, lo, hi)) && |m'.sys| == |m.sys|
    && g' == g - PagesAt(m.table, lo, hi)
    && TableOk(m', g')
  }

  lemma EntryFreedOver(m: Space, g: Pages, i: nat, sys: System)
    requires TableOk(m, g) && i < m.rbrk && m.table[i] != 0
    ensures TableOk(m.(sys := sys, table := m.table[i := 0]), g - {m.table[i]})
  {}

  lemma TableReaches(m: Space)
    requires 0 < |m.lines| && TableOk(m, Global(m.sys))
    ensures TableRouted(m)
  {
    assert Routed(m.sys, 0);
    forall b: nat | b < 1024 ensures Routed(m.sys, m.table[b]) {
      if m.table[b] != 0 { LiveRouted(m.sys, m.table[b]); }
    }
  }

  /** A mapped entry is always freed: the client owns its page. */
  lemma EntryFreed(m: Space, i: nat)
    requires 0 < |m.lines| && AllGood(m.sys) && TableOk(m, Global(m.sys)) && i < m.rbrk && m.table[i] != 0
    ensures TableRouted(m)
    ensures var f := FreeEntry(m, i);
      && f.answer == Error(0) && AllGood(f.m.sys) && |f.m.sys| == |m.sys|
      && f.m == m.(sys := f.m.sys, table := m.table[i := 0])
      && Global(f.m.sys) == Global(m.sys) - {m.table[i]} && TableOk(f.m, Global(f.m.sys))
  {
    TableReaches(m);
    StubFreeStep(m.sys, m.node, m.table[i]);
    EntryFreedOver(m, Global(m.sys), i, FreeEntry(m, i).m.sys);
  }

  lemma NulledStep(t: seq<u32>, i: nat, e: nat, g: Pages)
    requires i < e <= |t|
    ensures Nulled(t[i := 0], i + 1, e) == Nulled(t, i, e)
    ensures g - {t[i]} - PagesAt(t[i := 0], i + 1, e) == g - PagesAt(t, i, e)
  {
    forall p: u32 ensures p in PagesAt(t, i, e) <==> p == t[i] || p in PagesAt(t[i := 0], i + 1, e) {
      if p in PagesAt(t, i, e) && p != t[i] {
        var b: nat :| i <= b < e && t[b] == p;
        assert t[i := 0][b] == p;
      }
      if p in PagesAt(t[i := 0], i + 1, e) {
        var b: nat :| i + 1 <= b < e && t[i := 0][b] == p;
        assert t[b] == p;
      }
      assert p == t[i] ==> p in PagesAt(t, i, e);
    }
  }

  lemma RangeFreedStep(m: Space, g: Pages, m1: Space, g1: Pages, m': Space, g': Pages, i: nat, e: nat)
    requires i < e <= m.rbrk && |m.table| == 1024 && m.rbrk <= 1024
    requires m1 == m.(sys := m1.sys, table := m.table[i := 0]) && |m1.sys| == |m.sys| && g1 == g - {m.table[i]}
    requires RangeFreed(m1, g1, m', g', i + 1, e)
    ensures RangeFreed(m, g, m', g', i, e)
  {
    NulledStep(m.table, i, e, g);
  }

  /** The loop's outcome: the mapped pages up to the first gap are freed, and it fails exactly if there
      is one. */
  ghost predicate FreesRange(m: Space, g: Pages, i: nat, f: Freed, g': Pages)
    requires |m.table| == 1024 && m.rbrk <= 1024
  {
    var e := EndOf(m.table, i, m.rbrk);
    RangeFreed(m, g, f.m, g', i, e) && f.answer == Error(if e == m.rbrk then 0 else EINVAL)
  }

  lemma FreesMore(m: Space, g: Pages, i: nat, m1: Space, g1: Pages, f: Freed, g': Pages)
    requires TableOk(m, g) && i < m.rbrk && m.table[i] != 0
    requires m1 == m.(sys := m1.sys, table := m.table[i := 0]) && |m1.sys| == |m.sys| && g1 == g - {m.table[i]}
    requires FreesRange(m1, g1, i + 1, f, g')
    ensures FreesRange(m, g, i, f, g')
  {
    EndSame(m.table, m1.table, i + 1, m.rbrk);
    RangeFreedStep(m, g, m1, g1, f.m, g', i, EndOf(m.table, i, m.rbrk));
  }

  lemma FreesNone(m: Space, g: Pages, i: nat)
    requires TableOk(m, g) && i <= m.rbrk && (i < m.rbrk ==> m.table[i] == 0)
    ensures FreesRange(m, g, i, Freed(m, Error(if i == m.rbrk then 0 else EINVAL)), g)
  {
    assert Nulled(m.table, i, i) == m.table;
  }

  lemma {:induction false} FreeRangeStep(m: Space, i: nat, f: Freed)
    requires 0 < |m.lines| && AllGood(m.sys) && TableOk(m, Global(m.sys)) && i <= m.rbrk
    requires TableRouted(m) && f == FreeRange(m, i)
    ensures AllGood(f.m.sys) && FreesRange(m, Global(m.sys), i, f, Global(f.m.sys))
    decreases m.rbrk - i, 0
  {
    if i == m.rbrk || m.table[i] == 0 {
      FreesNone(m, Global(m.sys), i);
    } else {
      EntryFreed(m, i);
      FreeRangeNext(m, i, FreeEntry(m, i).m, f);
    }
  }

  lemma {:induction false} FreeRangeNext(m: Space, i: nat, m1: Space, f: Freed)
    requires 0 < |m.lines| && TableOk(m, Global(m.sys)) && i < m.rbrk && m.table[i] != 0
    requires m1 == m.(sys := m1.sys, table := m.table[i := 0]) && |m1.sys| == |m.sys|
    requires Global(m1.sys) == Global(m.sys) - {m.table[i]}
    requires AllGood(m1.sys) && TableOk(m1, Global(m1.sys)) && TableRouted(m1) && f == FreeRange(m1, i + 1)
    ensures AllGood(f.m.sys) && FreesRange(m, Global(m.sys), i, f, Global(f.m.sys))
    decreases m.rbrk - i - 1, 1
  {
    FreeRangeStep(m1, i + 1, f);
    FreesMore(m, Global(m.sys), i, m1, Global(m1.sys), f, Global(f.m.sys));
  }

  /** The flat memory without the pages from `lo` to `hi`. */
  ghost function Without(f: map<nat, Page>, lo: nat, hi: nat): map<nat, Page>
  {
    map b: nat | b in f && !(lo <= b < hi) :: f[b]
  }

  /** The pages that nanvix_vmem_free() returns to their servers. */
  ghost function Doomed(m: Space, ptr: nat): set<u32>
    requires Sized(m) && m.rbrk <= 1024
  {
    if LookupPage(m, ptr) < 0 then {} else PagesAt(m.table, PageIndex(ptr), EndOf(m.table, PageIndex(ptr), m.rbrk))
  }

  lemma FreedLines(m: Space, g: Pages, m': Space, lo: nat, hi: nat)
    requires SoundOver(m, g) && lo <= hi <= m.rbrk && m' == m.(sys := m'.sys, table := Nulled(m.table, lo, hi))
    requires forall b: nat | lo <= b < hi :: m.table[b] != 0
    ensures LinesOk(m', g - PagesAt(m.table, lo, hi)) && OwnLine(m') <==> m.lines[0].pgnum !in PagesAt(m.table, lo, hi)
  {
    var p := m.lines[0].pgnum;
    if p != 0 && p !in PagesAt(m.table, lo, hi) {
      var b: nat :| b < |m.table| && m.table[b] == p;
      assert m'.table[b] == p;
    }
  }

  lemma FreedFlat(m: Space, g: Pages, m': Space, g': Pages, lo: nat, hi: nat)
    requires SoundOver(m, g) && SoundOver(m', g') && lo <= hi <= m.rbrk
    requires m' == m.(sys := m'.sys, table := Nulled(m.table, lo, hi), rbrk := m'.rbrk)
    requires g' == g - PagesAt(m.table, lo, hi)
    ensures FlatOver(m', g') == Without(FlatOver(m, g), lo, hi)
  {
    forall b: nat | b < 1024 && !(lo <= b < hi) && m.table[b] != 0 ensures m.table[b] in g' {
      assert m'.table[b] == m.table[b];
    }
  }

  lemma LowerBreak(m: Space, g: Pages, brk: nat)
    requires TableOk(m, g) && 1 <= brk <= m.rbrk && forall b: nat | brk <= b < m.rbrk :: m.table[b] == 0
    ensures TableOk(m.(rbrk := brk), g)
  {}

  /** A client's memory: its mapped pages and the break; its page table, the page that is cached, how
      many hold it, and the counter of allocations. */
  datatype View = View(pages: map<nat, Page>, brk: nat, table: seq<u32>, cached: u32, holders: int, nallocs: u32)

  ghost function ViewOf(m: Space): View
    requires Sound(m)
  {
    View(Flat(m), m.rbrk, m.table, m.lines[0].pgnum, m.lines[0].refcount, m.nallocs)
  }

  /** What nanvix_vmem_free() returns: 0 exactly if every page from the address to the break is
      mapped. */
  ghost function FreeCode(v: View, ptr: nat): int
  {
    var b := PageIndex(ptr);
    if b >= TABLE then EINVAL
    else if b !in v.pages then EFAULT
    else if End(v.pages, b, v.brk) == v.brk then 0
    else EINVAL
  }

  /** The memory without the pages up to the first gap; the break moves only if there is none. */
  ghost function Shrunk(v: View, ptr: nat): View
  {
    var b := PageIndex(ptr);
    if b !in v.pages then v
    else
      var e := End(v.pages, b, v.brk);
      v.(pages := Without(v.pages, b, e), brk := if e == v.brk then b else v.brk, table := Nulled(v.table, b, e))
  }

  lemma LookupIs(m: Space, ptr: nat)
    requires Sound(m)
    ensures LookupPage(m, ptr) == if PageIndex(ptr) >= TABLE then EINVAL else if PageIndex(ptr) !in Flat(m) then EFAULT else 0
  {
    assert PageIndex(ptr) in Flat(m) ==> PageIndex(ptr) >= 1;
  }

  /** The outcome of a free that got past the checks, with the loop's outcome `x`. */
  lemma {:induction false} FreedFrom(m: Space, g: Pages, b: nat, x: Space, m': Space, g': Pages)
    requires SoundOver(m, g) && 1 <= b < m.rbrk && RangeFreed(m, g, x, g', b, EndOf(m.table, b, m.rbrk))
    requires m' == x.(rbrk := if EndOf(m.table, b, m.rbrk) == m.rbrk then b else m.rbrk)
    ensures g' == g - PagesAt(m.table, b, EndOf(m.table, b, m.rbrk))
    ensures SoundOver(m', g') <==> m.lines[0].pgnum !in PagesAt(m.table, b, EndOf(m.table, b, m.rbrk))
    ensures SoundOver(m', g') ==> FlatOver(m', g') == Without(FlatOver(m, g), b, EndOf(m.table, b, m.rbrk))
  {
    var e := EndOf(m.table, b, m.rbrk);
    if e == m.rbrk { LowerBreak(x, g', b); }
    FreedLines(m, g, x, b, e);
    if SoundOver(m', g') { FreedFlat(m, g, m', g', b, e); }
  }

  /** nanvix_vmem_free() returns the mapped pages from the address up to the first gap to their
      servers. Cached lines are left alone: the invariant survives exactly if the cached page is not
      one of those pages, and then the memory loses those pages and nothing else. */
  lemma FreeStep(m: Space, ptr: nat)
    requires Sound(m)
    ensures TableRouted(m)
    ensures var f := FreeMem(m, ptr);
      && f.answer == Error(FreeCode(ViewOf(m), ptr))
      && Global(f.m.sys) == Global(m.sys) - Doomed(m, ptr) && Frame(m, Global(m.sys), f.m, Global(f.m.sys))
      && (Sound(f.m) <==> m.lines[0].pgnum !in Doomed(m, ptr))
      && (Sound(f.m) ==> ViewOf(f.m) == Shrunk(ViewOf(m), ptr))
  {
    SoundReaches(m);
    LookupIs(m, ptr);
    if LookupPage(m, ptr) == 0 { FreeMapped(m, ptr, FreeMem(m, ptr)); }
  }

  lemma FreeMapped(m: Space, ptr: nat, f: Freed)
    requires Sound(m) && TableRouted(m) && PageIndex(ptr) in Flat(m) && LookupPage(m, ptr) == 0 && f == FreeMem(m, ptr)
    ensures f.answer == Error(FreeCode(ViewOf(m), ptr))
    ensures Global(f.m.sys) == Global(m.sys) - Doomed(m, ptr) && Frame(m, Global(m.sys), f.m, Global(f.m.sys))
    ensures Sound(f.m) <==> m.lines[0].pgnum !in Doomed(m, ptr)
    ensures Sound(f.m) ==> ViewOf(f.m) == Shrunk(ViewOf(m), ptr)
  {
    var b := PageIndex(ptr);
    EndIs(Flat(m), m.table, b, m.rbrk);
    var x := FreeRange(m, b);
    FreeRangeStep(m, b, x);
    FreedFrom(m, Global(m.sys), b, x.m, f.m, Global(f.m.sys));
    FreedFrame(m, Global(m.sys), f.m, Global(f.m.sys), b, EndOf(m.table, b, m.rbrk));
  }

  lemma FreedFrame(m: Space, g: Pages, m': Space, g': Pages, lo: nat, hi: nat)
    requires |m'.sys| == |m.sys| && m'.node == m.node && m'.table == Nulled(m.table, lo, hi) && g' == g - PagesAt(m.table, lo, hi)
    ensures Frame(m, g, m', g')
  {
    forall p: u32 | p in m'.table && p != 0 ensures p in m.table {
      var b: nat :| b < |m'.table| && m'.table[b] == p;
      assert m.table[b] == p;
    }
  }

  /** After a read or a write of page `b`, freeing from a higher page is safe, and freeing from `b` or
      below is safe exactly if a gap below `b` stops it. */
  lemma FreeAfterAccess(m: Space, b: nat, from: nat)
    requires Sound(m) && Caches(m, b) && PageIndex(from) in Flat(m)
    ensures TableRouted(m)
    ensures Sound(FreeMem(m, from).m) <==> !(PageIndex(from) <= b < End(Flat(m), PageIndex(from), m.rbrk))
  {
    FreeStep(m, from);
    LookupIs(m, from);
    EndIs(Flat(m), m.table, PageIndex(from), m.rbrk);
    AtMost(m.table, PageIndex(from), EndOf(m.table, PageIndex(from), m.rbrk), b);
  }

  lemma AtMost(t: seq<u32>, lo: nat, hi: nat, b: nat)
    requires hi <= |t| && b < |t| && t[b] != 0
    requires forall c: nat, d: nat | c < |t| && d < |t| && t[c] == t[d] != 0 :: c == d
    ensures t[b] in PagesAt(t, lo, hi) <==> lo <= b < hi
  {}

  /** A client that has just been set up. */
  ghost predicate Fresh(m: Space)
  {
    && 0 < |m.lines| && (forall i: nat | i < |m.lines| :: m.lines[i].pgnum == 0 && m.lines[i].refcount == 0)
    && |m.table| == 1024 && (forall b: nat | b < 1024 :: m.table[b] == 0) && m.rbrk == 1
  }

  /** A client starts with an empty cache, an empty table, and no memory. */
  lemma FreshIsSound(m: Space)
    requires AllGood(m.sys) && Fresh(m)
    ensures Sound(m) && Flat(m) == map[]
  {}

  // ----- bytes

  /** The byte at an address of the flat memory. */
  ghost function ByteAt(f: map<nat, Page>, a: nat): byte
    requires PageIndex(a) in f
  {
    f[PageIndex(a)][PageOffset(a)]
  }

  /** A store changes the bytes at its addresses and no others. */
  lemma StoredBytes(f: map<nat, Page>, ptr: nat, buf: Image, a: nat)
    requires Inside(f, ptr, |buf|) && PageIndex(a) in f
    ensures ByteAt(Stored(f, ptr, buf), a) == if ptr <= a < ptr + |buf| then buf[a - ptr] else ByteAt(f, a)
  {
    SplitAddress(ptr, a, |buf|);
  }

  lemma SplitAddress(ptr: nat, a: nat, n: nat)
    requires PageOffset(ptr) + n <= 4096
    ensures ptr <= a < ptr + n <==> PageIndex(a) == PageIndex(ptr) && PageOffset(ptr) <= PageOffset(a) < PageOffset(ptr) + n
    ensures PageIndex(a) == PageIndex(ptr) ==> a - ptr == PageOffset(a) - PageOffset(ptr)
  {}

  // ----- stale lines

  /** If the cached page is freed and handed out again to another client, the stale line later
      overwrites that client's zero page. */
  lemma StaleWriteBack(m: Space, owner: int, other: int, k: u32)
    requires Sound(m) && m.lines[0].pgnum != 0
    requires Routed(m.sys, m.lines[0].pgnum)
    requires StubFree(m.sys, owner, m.lines[0].pgnum).answer == Error(0)
    requires StubAlloc(StubFree(m.sys, owner, m.lines[0].pgnum).sys, other, k).answer == PageNum(m.lines[0].pgnum)
    ensures var p, sys := m.lines[0].pgnum, StubAlloc(StubFree(m.sys, owner, m.lines[0].pgnum).sys, other, k).sys;
      && p in Global(sys) && Global(sys)[p] == Cell(other, ZeroPage()) && Routed(sys, p)
      && var b := Bypass(m.(sys := sys));
         p in Global(b.sys) && Global(b.sys)[p] == Cell(other, m.lines[0].page)
  {
    var p := m.lines[0].pgnum;
    var s1 := StubFree(m.sys, owner, p).sys;
    StubFreeStep(m.sys, owner, p);
    StubAllocStep(s1, other, k);
    var m2 := m.(sys := StubAlloc(s1, other, k).sys);
    FlushStep(m2, 0);
  }
}
