/**
  The page cache and the memory manager as they run: cache lines, page table and break updated in
  place. Every method is proved against the functions of Vmem; a request to a remote memory server
  is one call of the stub.
 */
module VmemDriver {
  import opened Disk
  import opened RmemServer
  import opened RmemStub
  import opened Vmem

  class Client {
    var sys: System
    const node: int
    var nallocs: u32
    const lines: array<Line>
    const table: array<u32>
    var rbrk: nat

    ghost predicate Valid()
      reads this
    {
      0 < lines.Length && table.Length == 1024 && lines as object != table
    }

    ghost function State(): (m: Space)
      requires Valid()
      reads this, lines, table
      ensures Sized(m)
    {
      Space(sys, node, nallocs, lines[..], table[..], rbrk)
    }

    /** __nanvix_rcache_setup() for `n` lines, whose memory holds `page`. */
    constructor (servers: System, me: int, n: nat, page: Page)
      requires 0 < n
      ensures Valid() && State() == Space(servers, me, 0, seq(n, _ => Line(0, 0, page)), seq(1024, _ => 0), 1)
      ensures AllGood(servers) ==> Sound(State()) && Flat(State()) == map[]
    {
      sys, node, nallocs, rbrk := servers, me, 0, 1;
      lines := new Line[n](_ => Line(0, 0, page));
      table := new u32[1024](_ => 0);
      new;
      assert lines[..] == seq(n, _ => Line(0, 0, page)) && table[..] == seq(1024, _ => 0);
      if AllGood(servers) { FreshIsSound(State()); }
    }

    /** nanvix_rcache_page_search(). */
    method Search(pgnum: u32) returns (i: nat)
      requires Valid()
      ensures i == SearchLine(lines[..], pgnum, 0)
    {
      i := 0;
      while i < lines.Length
        invariant i <= lines.Length && SearchLine(lines[..], pgnum, 0) == SearchLine(lines[..], pgnum, i)
      {
        if lines[i].refcount != 0 && lines[i].pgnum == pgnum { return; }
        i := i + 1;
      }
    }

    /** nanvix_rcache_flush(). */
    method Flush(i: nat)
      requires Valid() && i < lines.Length && Routed(sys, lines[i].pgnum)
      modifies this`sys
      ensures Valid() && State() == FlushLine(old(State()), i)
    {
      var c := StubWrite(sys, lines[i].pgnum, lines[i].page);
      sys := c.sys;
    }

    /** nanvix_rcache_bypass(): always line 0. */
    method Evict() returns (i: nat)
      requires Valid() && Routed(sys, lines[0].pgnum)
      modifies this`sys, lines
      ensures Valid() && i == 0 && State() == Bypass(old(State()))
    {
      i := 0;
      Flush(0);
      lines[0] := lines[0].(refcount := 0);
      lines[0] := lines[0].(pgnum := 0);
    }

    /** nanvix_rcache_get(): -1 stands for the null pointer. */
    method GetLine(pgnum: u32) returns (line: int)
      requires Valid() && Routed(sys, lines[0].pgnum) && Routed(sys, pgnum)
      modifies this`sys, lines
      ensures Valid() && Got(State(), line) == GetPage(old(State()), pgnum)
      ensures -1 <= line < lines.Length
    {
      if pgnum == 0 { return -1; }
      line := Search(pgnum);
      if line == lines.Length {
        line := Evict();
        StubWriteServers(old(sys), old(lines[0]).pgnum, old(lines[0]).page);
        var c := StubRead(sys, pgnum);
        lines[line] := lines[line].(page := Received(c.answer, lines[line].page));
        lines[line] := lines[line].(pgnum := pgnum);
      }
      lines[line] := lines[line].(refcount := lines[line].refcount + 1);
    }

    /** nanvix_rcache_put(). */
    method PutLine(pgnum: u32) returns (ret: int)
      requires Valid() && Routed(sys, pgnum)
      modifies this`sys, lines
      ensures Valid() && (State(), ret) == PutPage(old(State()), pgnum)
    {
      if pgnum == 0 { return EINVAL; }
      var i := Search(pgnum);
      if i == lines.Length { return ENOENT; }
      var last := lines[i].refcount == 1;
      lines[i] := lines[i].(refcount := lines[i].refcount - 1);
      if last { Flush(i); }
      return 0;
    }

    /** nanvix_rmem_alloc(): 0 is the null page. */
    method AllocPage() returns (pgnum: u32)
      modifies this`sys, this`nallocs
      ensures var c := StubAlloc(old(sys), node, old(nallocs));
        && sys == c.sys
        && pgnum == (if c.answer.PageNum? then c.answer.page else 0)
        && nallocs == if pgnum == 0 then old(nallocs) else Succ(old(nallocs))
    {
      var c := StubAlloc(sys, node, nallocs);
      sys := c.sys;
      if !c.answer.PageNum? || c.answer.page == 0 { return 0; }
      nallocs := Succ(nallocs);
      return c.answer.page;
    }

    /** nanvix_vmem_alloc(): the index of the first page, or -1. */
    method Alloc(n: nat) returns (ret: int)
      requires Valid()
      modifies this, table
      ensures Valid() && State() == AllocMem(old(State()), n).m && ret == AllocMem(old(State()), n).ret
    {
      if n == 0 { return -1; }
      if rbrk + n >= TABLE { return -1; }
      var base := rbrk;
      rbrk := rbrk + n;
      FillIs(State(), base, n);
      var got := FillTable(base, n);
      return if got == n then base else -1;
    }

    /** The loop of nanvix_vmem_alloc(): the number of pages obtained. */
    method FillTable(base: nat, n: nat) returns (got: nat)
      requires Valid() && base + n <= 1024
      modifies this`sys, this`nallocs, table
      ensures Valid() && got <= n && Filled(State(), n - got) == FillFrom(old(State()), base, n)
    {
      ghost var goal, left := FillFrom(State(), base, n), n;
      var at := base;
      got := 0;
      while got < n
        invariant Valid() && got + left == n && at == base + got && goal == FillFrom(State(), at, left)
      {
        var pgnum := EnterPage(at, left);
        if pgnum == 0 { return; }
        got, at, left := got + 1, at + 1, left - 1;
      }
    }

    /** One round of the loop, with `n` pages to go. */
    method EnterPage(b: nat, ghost n: nat) returns (pgnum: u32)
      requires Valid() && 0 < n && b + n <= 1024
      modifies this`sys, this`nallocs, table
      ensures Valid()
      ensures FillFrom(old(State()), b, n) == if pgnum == 0 then Filled(State(), n) else FillFrom(State(), b + 1, n - 1)
    {
      pgnum := AllocPage();
      if pgnum != 0 { table[b] := pgnum; }
    }

    /** nanvix_vmem_free(). */
    method FreeAll(ptr: nat) returns (answer: Answer)
      requires Valid() && TableRouted(State()) && rbrk <= 1024
      modifies this`sys, this`rbrk, table
      ensures Valid() && Freed(State(), answer) == FreeMem(old(State()), ptr)
    {
      if ptr == 0 { return Error(EFAULT); }
      var base := ptr / 4096;
      if base >= TABLE { return Error(EINVAL); }
      if table[base] == 0 { return Error(EFAULT); }
      if rbrk == base { return Error(EFAULT); }
      if rbrk < base { return Error(EINVAL); }
      answer := FreeLoop(base);
      if Fails(answer) { return; }
      if base < 1 { return Error(EINVAL); }
      rbrk := base;
      return Error(0);
    }

    /** The loop of nanvix_vmem_free(). */
    method FreeLoop(base: nat) returns (answer: Answer)
      requires Valid() && TableRouted(State()) && rbrk <= 1024
      modifies this`sys, table
      ensures Valid() && Freed(State(), answer) == FreeRange(old(State()), base)
    {
      var i := base;
      answer := Error(0);
      while i < rbrk
        invariant Valid() && TableRouted(State())
        invariant FreeRange(old(State()), base) == FreeRange(State(), i) && answer == Error(0)
      {
        var x := FreePage(i);
        if Fails(x) { return x; }
        i := i + 1;
      }
    }

    /** nanvix_rcache_free() of an entry of the table. */
    method FreePage(i: nat) returns (answer: Answer)
      requires Valid() && TableRouted(State()) && i < 1024
      modifies this`sys, table
      ensures Valid() && TableRouted(State()) && Freed(State(), answer) == FreeEntry(old(State()), i)
    {
      if table[i] == 0 { return Error(EINVAL); }
      var c := StubFree(sys, node, table[i]);
      sys := c.sys;
      if !Fails(c.answer) { table[i] := 0; }
      return c.answer;
    }

    /** The checks of nanvix_vmem_read() and nanvix_vmem_write(), with nanvix_vmem_lookup(). */
    method Check(ptr: nat, n: nat) returns (ok: bool)
      requires Valid()
      ensures ok == Accepted(State(), ptr, n)
    {
      if n == 0 || ptr == 0 { return false; }
      var base := ptr / 4096;
      if base >= TABLE { return false; }
      if table[base] == 0 { return false; }
      return n <= BLOCK_SIZE && ptr % 4096 + n <= BLOCK_SIZE;
    }

    /** nanvix_vmem_read(). */
    method Read(ptr: nat, n: nat) returns (ret: nat, data: Image)
      requires Valid() && Reaches(State())
      modifies this`sys, lines
      ensures Valid() && Transfer(State(), ret, data) == ReadBytes(old(State()), ptr, n)
    {
      var ok := Check(ptr, n);
      if !ok { return 0, []; }
      var line := GetLine(table[ptr / 4096]);
      if line < 0 { return 0, []; }
      return n, lines[line].page[ptr % 4096..ptr % 4096 + n];
    }

    /** nanvix_vmem_write(). */
    method Write(ptr: nat, buf: Image) returns (ret: nat)
      requires Valid() && Reaches(State())
      modifies this`sys, lines
      ensures Valid() && Transfer(State(), ret, []) == WriteBytes(old(State()), ptr, buf)
    {
      var ok := Check(ptr, |buf|);
      if !ok { return 0; }
      var line := GetLine(table[ptr / 4096]);
      if line < 0 { return 0; }
      lines[line] := lines[line].(page := Splice(lines[line].page, ptr % 4096, buf));
      return |buf|;
    }
  }

  lemma StubWriteServers(sys: System, a: u32, page: Page)
    requires Routed(sys, a)
    ensures |StubWrite(sys, a, page).sys| == |sys|
  {}

  /** The allocation loop from table index `b` on, with `n` pages to go: the client afterwards, and how
      many pages are missing. */
  datatype Filled = Filled(m: Space, missing: nat)

  function FillFrom(m: Space, b: nat, n: nat): Filled
    requires Sized(m) && b + n <= 1024
    decreases n
  {
    if n == 0 then Filled(m, 0)
    else
      var c := StubAlloc(m.sys, m.node, m.nallocs);
      if !c.answer.PageNum? || c.answer.page == 0 then Filled(m.(sys := c.sys), n)
      else FillFrom(m.(sys := c.sys, nallocs := Succ(m.nallocs), table := m.table[b := c.answer.page]), b + 1, n - 1)
  }

  /** The pages of a series of allocations, entered one after the other. */
  function Filling(m: Space, b: nat, n: nat, r: Many): Filled
    requires |r.pages| <= n && b + n <= |m.table|
  {
    Filled(m.(sys := r.sys, nallocs := r.nallocs, table := Entered(m.table, b, r.pages)), n - |r.pages|)
  }

  lemma FillingMore(m: Space, b: nat, n: nat, sys: System, page: u32, rest: Many)
    requires 0 < n && |rest.pages| < n && b + n <= |m.table|
    ensures Filling(m, b, n, More(page, rest))
         == Filling(m.(sys := sys, nallocs := Succ(m.nallocs), table := m.table[b := page]), b + 1, n - 1, rest)
  {
    assert More(page, rest).pages[1..] == rest.pages;
  }

  /** The loop does a series of allocations and enters their pages. */
  lemma {:induction false} FillIs(m: Space, b: nat, n: nat)
    requires Sized(m) && b + n <= 1024
    ensures FillFrom(m, b, n) == Filling(m, b, n, AllocMany(m.sys, m.node, m.nallocs, n))
    decreases n
  {
    if n != 0 {
      var c := StubAlloc(m.sys, m.node, m.nallocs);
      ManyStep(m.sys, m.node, m.nallocs, n);
      if c.answer.PageNum? && c.answer.page != 0 {
        FillIs(m.(sys := c.sys, nallocs := Succ(m.nallocs), table := m.table[b := c.answer.page]), b + 1, n - 1);
        FillingMore(m, b, n, c.sys, c.answer.page, AllocMany(c.sys, m.node, Succ(m.nallocs), n - 1));
      }
    }
  }
}
