/**
  Runs of any number of clients, each with its own page cache and memory manager
  (src/libruntime/mm/cache.c and src/libruntime/mm/manager.c), over the same remote memory servers.
  As long as no client frees the page it has cached, each has a flat memory of its own: no other
  client can change it.
 */
module VmemRun {
  import opened Disk
  import opened RmemStub
  import opened Vmem

  datatype Op = New(n: nat) | Get(ptr: nat, n: nat) | Set(ptr: nat, buf: Image) | Put(page: nat) | Free(ptr: nat)

  /** What an operation returns: a number, for a read also the bytes; and the pages that an allocation
      obtained. */
  datatype Result = Result(ret: int, data: Image, pages: seq<u32>)

  datatype Done = Done(m: Space, r: Result)

  /** An allocation, a read, a write, the release of the cached page of a table entry, or a free. */
  ghost function Exec(m: Space, op: Op): Done
    requires Reaches(m) && m.rbrk <= 1024
  {
    match op
    case New(n) => var r := AllocMem(m, n); Done(r.m, Result(r.ret, [], r.pages))
    case Get(ptr, n) => var r := ReadBytes(m, ptr, n); Done(r.m, Result(r.n, r.data, []))
    case Set(ptr, buf) => var r := WriteBytes(m, ptr, buf); Done(r.m, Result(r.n, [], []))
    case Put(b) =>
      if b < 1024 then var r := PutPage(m, m.table[b]); Done(r.0, Result(r.1, [], []))
      else Done(m, Result(EINVAL, [], []))
    case Free(ptr) =>
      var f := FreeMem(m, ptr);
      Done(f.m, Result(if f.answer.Error? then f.answer.code else EINVAL, [], []))
  }

  // ----- the abstract memory

  /** The view after page `b` was accessed. */
  ghost function Accessed(v: View, b: nat): View
    requires b < |v.table|
  {
    v.(cached := v.table[b], holders := if IsLoaded(v, b) then v.holders + 1 else 1)
  }

  /** The page of entry `b` is cached, and held. */
  ghost predicate IsLoaded(v: View, b: nat) { b < |v.table| && v.cached == v.table[b] && v.holders > 0 }

  /** The pages that a free takes. */
  ghost function Taken(v: View, ptr: nat): set<u32>
  {
    if PageIndex(ptr) in v.pages then PagesAt(v.table, PageIndex(ptr), End(v.pages, PageIndex(ptr), v.brk)) else {}
  }

  ghost predicate Grants(v: View, n: nat) { 0 < n && v.brk + n < TABLE }

  /** What an operation does to the memory of its client. */
  ghost function After(v: View, op: Op, r: Result): View
  {
    match op
    case New(n) =>
      if Grants(v, n) && v.brk + |r.pages| <= |v.table| then
        View(Cleared(v.pages, v.brk, v.brk + |r.pages|), v.brk + n, Entered(v.table, v.brk, r.pages),
             v.cached, v.holders, Turns(v.nallocs, |r.pages|))
      else v
    case Get(ptr, n) => if Inside(v.pages, ptr, n) && PageIndex(ptr) < |v.table| then Accessed(v, PageIndex(ptr)) else v
    case Set(ptr, buf) =>
      if Inside(v.pages, ptr, |buf|) && PageIndex(ptr) < |v.table|
      then Accessed(v, PageIndex(ptr)).(pages := Stored(v.pages, ptr, buf))
      else v
    case Put(b) => if b in v.pages && IsLoaded(v, b) then v.(holders := v.holders - 1) else v
    case Free(ptr) => Shrunk(v, ptr)
  }

  /** What it does to the live pages of all clients. */
  ghost function LiveAfter(live: set<u32>, v: View, op: Op, r: Result): set<u32>
  {
    match op
    case New(n) => live + Members(r.pages)
    case Free(ptr) => live - Taken(v, ptr)
    case _ => live
  }

  /** Which results are right, with `servers` servers: all of them are determined, but for the page
      numbers of new pages. */
  ghost predicate Correct(servers: nat, live: set<u32>, v: View, op: Op, r: Result)
    requires 0 < servers
  {
    match op
    case New(n) =>
      if Grants(v, n) then
        && Obtains(servers, live, v.nallocs, n, r.pages)
        && r.ret == (if |r.pages| == n then v.brk else -1)
        && forall b: nat | b in v.pages :: b < v.brk
      else r.ret == -1 && r.pages == []
    case Get(ptr, n) =>
      if Inside(v.pages, ptr, n)
      then r.ret == n && r.data == v.pages[PageIndex(ptr)][PageOffset(ptr)..PageOffset(ptr) + n]
      else r.ret == 0
    case Set(ptr, buf) => r.ret == if Inside(v.pages, ptr, |buf|) then |buf| else 0
    case Put(b) => r.ret == if b !in v.pages then EINVAL else if IsLoaded(v, b) then 0 else ENOENT
    case Free(ptr) => r.ret == FreeCode(v, ptr)
  }

  /** A free leaves the cached page alone. */
  ghost predicate Safe(v: View, op: Op)
  {
    op.Free? ==> v.cached !in Taken(v, op.ptr)
  }

  // ----- one operation

  // Equality of views and of sets of pages, under names of their own.
  ghost predicate IsView(v: View, w: View) { v == w }

  ghost predicate IsLive(live: set<u32>, other: set<u32>) { live == other }

  /** The operation refines its abstract counterpart, and other clients see nothing of it. */
  ghost predicate Refines(m: Space, op: Op, s: Done)
    requires Sound(m)
  {
    && Sound(s.m)
    && Correct(|m.sys|, Global(m.sys).Keys, ViewOf(m), op, s.r)
    && IsView(ViewOf(s.m), After(ViewOf(m), op, s.r))
    && IsLive(Global(s.m.sys).Keys, LiveAfter(Global(m.sys).Keys, ViewOf(m), op, s.r))
    && Frame(m, Global(m.sys), s.m, Global(s.m.sys))
  }

  /** nanvix_vmem_alloc() obtains exactly the pages that the servers can give: the loop stops at the
      first one whose server is full. New pages appear as zeros at the old break, where none was
      mapped. */
  lemma {:induction false} NewStep(m: Space, n: nat)
    requires Sound(m)
    ensures var r := AllocMem(m, n); Refines(m, New(n), Done(r.m, Result(r.ret, [], r.pages)))
  {
    if Grants(ViewOf(m), n) {
      var r := AllocMany(m.sys, m.node, m.nallocs, n);
      AllocManyStep(m.sys, m.node, m.nallocs, n, r);
      NewFrom(m, n, r, AllocedFrom(m, n, r));
    }
  }

  lemma {:induction false} NewFrom(m: Space, n: nat, r: Many, x: Alloced)
    requires Sound(m) && 0 < n && m.rbrk + n < 1024 && |r.pages| <= n
    requires AllocatesMany(m.sys, m.node, m.nallocs, n, r) && x == AllocedFrom(m, n, r)
    ensures Refines(m, New(n), Done(x.m, Result(x.ret, [], x.pages)))
  {
    assert Extended(m, r.pages, m.rbrk + n, x.m);
    NewDone(m, n, r.pages, x.m, x.ret, Global(m.sys), Global(r.sys));
  }

  lemma {:induction false} NewDone(m: Space, n: nat, ps: seq<u32>, m': Space, ret: int, g: Pages, g': Pages)
    requires Sound(m) && 0 < n && |ps| <= n && Extended(m, ps, m.rbrk + n, m') && g == Global(m.sys) && g' == Global(m'.sys)
    requires AllGood(m'.sys) && |m'.sys| == |m.sys| && Grows(g, m.node, ps, g')
    requires Obtains(|m.sys|, g.Keys, m.nallocs, n, ps) && m'.nallocs == Turns(m.nallocs, |ps|)
    requires ret == if |ps| == n then m.rbrk else -1
    ensures Refines(m, New(n), Done(m', Result(ret, [], ps)))
  {
    AllocStepFrom(m, g, ps, m.rbrk + n, m', g');
    NewAbove(m, n, ps, m', ret, g, g');
  }

  lemma {:induction false} NewAbove(m: Space, n: nat, ps: seq<u32>, m': Space, ret: int, g: Pages, g': Pages)
    requires Sound(m) && 0 < n && |ps| <= n && Extended(m, ps, m.rbrk + n, m') && g == Global(m.sys) && g' == Global(m'.sys)
    requires Obtains(|m.sys|, g.Keys, m.nallocs, n, ps) && m'.nallocs == Turns(m.nallocs, |ps|)
    requires ret == if |ps| == n then m.rbrk else -1
    requires Sound(m') && IsCleared(Flat(m), m.rbrk, m.rbrk + |ps|, Flat(m')) && Frame(m, g, m', g')
    requires NowLive(g.Keys, ps, g'.Keys)
    ensures Refines(m, New(n), Done(m', Result(ret, [], ps)))
  {
    NewReport(m, n, ps, ret, g);
    NewView(m, n, ps, m', ret, ViewOf(m), ViewOf(m'));
    NewLive(g.Keys, ViewOf(m), n, ps, g'.Keys, ret);
    RefinesBy(m, New(n), Done(m', Result(ret, [], ps)));
  }

  lemma {:induction false} NewReport(m: Space, n: nat, ps: seq<u32>, ret: int, g: Pages)
    requires Sound(m) && 0 < n && |ps| <= n && m.rbrk + n < 1024 && g == Global(m.sys)
    requires Obtains(|m.sys|, g.Keys, m.nallocs, n, ps) && ret == if |ps| == n then m.rbrk else -1
    ensures Correct(|m.sys|, g.Keys, ViewOf(m), New(n), Result(ret, [], ps))
  {
    BelowBreak(m);
    NewCorrect(|m.sys|, g.Keys, ViewOf(m), n, ps, ret);
  }

  lemma {:induction false} NewView(m: Space, n: nat, ps: seq<u32>, m': Space, ret: int, v: View, v': View)
    requires Sound(m) && 0 < n && |ps| <= n && Extended(m, ps, m.rbrk + n, m') && m'.nallocs == Turns(m.nallocs, |ps|)
    requires Sound(m') && IsCleared(Flat(m), m.rbrk, m.rbrk + |ps|, Flat(m')) && v == ViewOf(m) && v' == ViewOf(m')
    ensures IsView(v', After(v, New(n), Result(ret, [], ps)))
  {
    assert |v.table| == 1024 && v.brk == m.rbrk && v'.brk == v.brk + n && v'.cached == v.cached && v'.holders == v.holders;
    assert IsEntered(v.table, v.brk, ps, v'.table);
    NewAfter(v, n, ps, v', ret);
  }

  lemma {:induction false} NewCorrect(servers: nat, live: set<u32>, v: View, n: nat, ps: seq<u32>, ret: int)
    requires 0 < servers && Grants(v, n) && Obtains(servers, live, v.nallocs, n, ps) && |ps| <= n
    requires ret == (if |ps| == n then v.brk else -1) && forall b: nat | b in v.pages :: b < v.brk
    ensures Correct(servers, live, v, New(n), Result(ret, [], ps))
  {}

  lemma {:induction false} NewAfter(v: View, n: nat, ps: seq<u32>, v': View, ret: int)
    requires Grants(v, n) && |ps| <= n && |v.table| == 1024
    requires IsCleared(v.pages, v.brk, v.brk + |ps|, v'.pages) && IsEntered(v.table, v.brk, ps, v'.table)
    requires v'.brk == v.brk + n && v'.cached == v.cached && v'.holders == v.holders && v'.nallocs == Turns(v.nallocs, |ps|)
    ensures IsView(v', After(v, New(n), Result(ret, [], ps)))
  {}

  lemma NewLive(live: set<u32>, v: View, n: nat, ps: seq<u32>, live': set<u32>, ret: int)
    requires NowLive(live, ps, live')
    ensures IsLive(live', LiveAfter(live, v, New(n), Result(ret, [], ps)))
  {}

  lemma RefinesBy(m: Space, op: Op, s: Done)
    requires Sound(m) && Sound(s.m)
    requires Correct(|m.sys|, Global(m.sys).Keys, ViewOf(m), op, s.r) && IsView(ViewOf(s.m), After(ViewOf(m), op, s.r))
    requires IsLive(Global(s.m.sys).Keys, LiveAfter(Global(m.sys).Keys, ViewOf(m), op, s.r))
    requires Frame(m, Global(m.sys), s.m, Global(s.m.sys))
    ensures Refines(m, op, s)
  {}

  lemma GetOpStep(m: Space, ptr: nat, n: nat)
    requires Sound(m)
    ensures Reaches(m)
    ensures var r := ReadBytes(m, ptr, n); Refines(m, Get(ptr, n), Done(r.m, Result(r.n, r.data, [])))
  {
    Vmem.ReadStep(m, ptr, n);
    GetFrom(m, ptr, n, ReadBytes(m, ptr, n));
  }

  lemma GetFrom(m: Space, ptr: nat, n: nat, r: Transfer)
    requires Sound(m) && Sound(r.m) && Flat(r.m) == Flat(m) && Calm(m, r.m)
    requires if Inside(Flat(m), ptr, n)
      then
        && Caches(r.m, PageIndex(ptr)) && r.m.lines[0].refcount == Holders(m, m.table[PageIndex(ptr)])
        && r.n == n && r.data == Flat(m)[PageIndex(ptr)][PageOffset(ptr)..PageOffset(ptr) + n]
      else r == Transfer(m, 0, [])
    ensures Refines(m, Get(ptr, n), Done(r.m, Result(r.n, r.data, [])))
  {
    if Inside(Flat(m), ptr, n) { AccessedIs(m, r.m, PageIndex(ptr)); }
    GetEffect(|m.sys|, Global(m.sys).Keys, ViewOf(m), ptr, n, Result(r.n, r.data, []));
    RefinesBy(m, Get(ptr, n), Done(r.m, Result(r.n, r.data, [])));
  }

  lemma Mapped(m: Space, b: nat)
    requires Sound(m)
    ensures b in Flat(m) <==> b < 1024 && m.table[b] != 0
  {}

  /** The view after an access, with the memory as it is then. */
  lemma AccessedIs(m: Space, m': Space, b: nat)
    requires Sound(m) && Sound(m') && Calm(m, m') && Caches(m', b) && m'.lines[0].refcount == Holders(m, m.table[b])
    ensures ViewOf(m') == Accessed(ViewOf(m), b).(pages := Flat(m'))
  {}

  lemma GetEffect(servers: nat, live: set<u32>, v: View, ptr: nat, n: nat, r: Result)
    requires 0 < servers
    requires if Inside(v.pages, ptr, n)
      then
        && PageIndex(ptr) < |v.table|
        && r.ret == n && r.data == v.pages[PageIndex(ptr)][PageOffset(ptr)..PageOffset(ptr) + n]
      else r.ret == 0
    ensures Correct(servers, live, v, Get(ptr, n), r) && LiveAfter(live, v, Get(ptr, n), r) == live
    ensures After(v, Get(ptr, n), r) == if Inside(v.pages, ptr, n) then Accessed(v, PageIndex(ptr)).(pages := v.pages) else v
  {}

  lemma SetOpStep(m: Space, ptr: nat, buf: Image)
    requires Sound(m)
    ensures Reaches(m)
    ensures var r := WriteBytes(m, ptr, buf); Refines(m, Set(ptr, buf), Done(r.m, Result(r.n, [], [])))
  {
    Vmem.WriteStep(m, ptr, buf);
    SetFrom(m, ptr, buf, WriteBytes(m, ptr, buf));
  }

  lemma SetFrom(m: Space, ptr: nat, buf: Image, r: Transfer)
    requires Sound(m) && Sound(r.m) && Calm(m, r.m)
    requires if Inside(Flat(m), ptr, |buf|)
      then
        && Caches(r.m, PageIndex(ptr)) && r.m.lines[0].refcount == Holders(m, m.table[PageIndex(ptr)])
        && r.n == |buf| && Flat(r.m) == Stored(Flat(m), ptr, buf)
      else r == Transfer(m, 0, [])
    ensures Refines(m, Set(ptr, buf), Done(r.m, Result(r.n, [], [])))
  {
    if Inside(Flat(m), ptr, |buf|) { AccessedIs(m, r.m, PageIndex(ptr)); }
    SetEffect(|m.sys|, Global(m.sys).Keys, ViewOf(m), ptr, buf, Result(r.n, [], []));
    RefinesBy(m, Set(ptr, buf), Done(r.m, Result(r.n, [], [])));
  }

  lemma SetEffect(servers: nat, live: set<u32>, v: View, ptr: nat, buf: Image, r: Result)
    requires 0 < servers && r.ret == if Inside(v.pages, ptr, |buf|) then |buf| else 0
    requires Inside(v.pages, ptr, |buf|) ==> PageIndex(ptr) < |v.table|
    ensures Correct(servers, live, v, Set(ptr, buf), r) && LiveAfter(live, v, Set(ptr, buf), r) == live
    ensures After(v, Set(ptr, buf), r) ==
      if Inside(v.pages, ptr, |buf|) then Accessed(v, PageIndex(ptr)).(pages := Stored(v.pages, ptr, buf)) else v
  {}

  lemma PutOpStep(m: Space, b: nat)
    requires Sound(m) && b < 1024
    ensures Reaches(m)
    ensures var r := PutPage(m, m.table[b]); Refines(m, Put(b), Done(r.0, Result(r.1, [], [])))
  {
    SoundReaches(m);
    PutStep(m, m.table[b]);
    Mapped(m, b);
    var r := PutPage(m, m.table[b]);
    PutEffect(|m.sys|, Global(m.sys).Keys, ViewOf(m), b, Result(r.1, [], []));
    RefinesBy(m, Put(b), Done(r.0, Result(r.1, [], [])));
  }

  lemma PutEffect(servers: nat, live: set<u32>, v: View, b: nat, r: Result)
    requires 0 < servers && r.ret == if b !in v.pages then EINVAL else if IsLoaded(v, b) then 0 else ENOENT
    ensures Correct(servers, live, v, Put(b), r) && LiveAfter(live, v, Put(b), r) == live
    ensures After(v, Put(b), r) == if r.ret == 0 then v.(holders := v.holders - 1) else v
  {}

  lemma TakenIs(m: Space, ptr: nat)
    requires Sound(m)
    ensures Taken(ViewOf(m), ptr) == Doomed(m, ptr)
  {
    LookupIs(m, ptr);
    if PageIndex(ptr) in Flat(m) { EndIs(Flat(m), m.table, PageIndex(ptr), m.rbrk); }
  }

  lemma FreeOpStep(m: Space, ptr: nat)
    requires Sound(m) && Safe(ViewOf(m), Free(ptr))
    ensures Reaches(m)
    ensures var f := FreeMem(m, ptr); f.answer.Error? && Refines(m, Free(ptr), Done(f.m, Result(f.answer.code, [], [])))
  {
    SoundReaches(m);
    TakenIs(m, ptr);
    Vmem.FreeStep(m, ptr);
  }

  /** One operation: it meets its specification, provided that a free leaves the cached page alone. */
  lemma ExecStep(m: Space, op: Op)
    requires Sound(m) && Safe(ViewOf(m), op)
    ensures Reaches(m)
    ensures Refines(m, op, Exec(m, op))
  {
    SoundReaches(m);
    match op
    case New(n) => NewStep(m, n);
    case Get(ptr, n) => GetOpStep(m, ptr, n);
    case Set(ptr, buf) => SetOpStep(m, ptr, buf);
    case Put(b) => if b < 1024 { PutOpStep(m, b); }
    case Free(ptr) => FreeOpStep(m, ptr);
  }

  // ----- any number of clients

  /** The servers and the clients; what a client's record says about the servers is out of date. */
  datatype Cluster = Cluster(sys: System, clients: seq<Space>)

  /** Client `i` as it is now. */
  function At(w: Cluster, i: nat): Space
    requires i < |w.clients|
  {
    w.clients[i].(sys := w.sys)
  }

  /** No page is in both tables. */
  ghost predicate Apart(a: Space, b: Space)
  {
    forall p: u32 | p in a.table && p in b.table :: p == 0
  }

  ghost predicate ClusterOk(w: Cluster)
  {
    && AllGood(w.sys)
    && (forall i: nat | i < |w.clients| :: Sound(At(w, i)))
    && (forall i: nat, j: nat | i < |w.clients| && j < |w.clients| && i != j :: Apart(w.clients[i], w.clients[j]))
  }

  /** An operation of one of the clients. */
  datatype Request = Request(client: nat, op: Op)

  datatype Turn = Turn(w: Cluster, r: Result)

  ghost function Serve(w: Cluster, q: Request): Turn
    requires q.client < |w.clients| && Reaches(At(w, q.client)) && w.clients[q.client].rbrk <= 1024
  {
    var s := Exec(At(w, q.client), q.op);
    Turn(Cluster(s.m.sys, w.clients[q.client := s.m]), s.r)
  }

  /** The live pages of all servers, and every client's own memory. */
  datatype Machine = Machine(live: set<u32>, views: seq<View>)

  ghost function Abs(w: Cluster): Machine
    requires ClusterOk(w)
  {
    Machine(Global(w.sys).Keys, seq(|w.clients|, i requires 0 <= i < |w.clients| => ViewOf(At(w, i))))
  }

  /** An operation changes the memory of its client and of no other. */
  ghost function Effect(a: Machine, q: Request, r: Result): Machine
  {
    if q.client < |a.views| then
      Machine(LiveAfter(a.live, a.views[q.client], q.op, r), a.views[q.client := After(a.views[q.client], q.op, r)])
    else a
  }

  ghost predicate Right(servers: nat, a: Machine, q: Request, r: Result)
    requires 0 < servers
  {
    q.client < |a.views| && Correct(servers, a.live, a.views[q.client], q.op, r)
  }

  /** The request comes from a client, and frees no page that this client has cached. */
  ghost predicate Allowed(a: Machine, q: Request)
  {
    q.client < |a.views| && Safe(a.views[q.client], q.op)
  }

  lemma OtherOver(m: Space, g: Pages, m': Space, g': Pages, o: Space)
    requires Frame(m, g, m', g') && SoundOver(o, g) && Apart(m, o)
    ensures var o' := o.(sys := m'.sys); SoundOver(o', g') && FlatOver(o', g') == FlatOver(o, g) && Apart(m', o)
  {
    forall b: nat | b < 1024 && o.table[b] != 0 ensures o.table[b] in g' && g'[o.table[b]] == g[o.table[b]] {
      assert o.table[b] in o.table && o.table[b] !in m.table;
    }
    if o.lines[0].pgnum != 0 {
      var b: nat :| b < |o.table| && o.table[b] == o.lines[0].pgnum;
      assert g'[o.table[b]] == g[o.table[b]];
    }
    assert forall p: u32 | p in o.table && p != 0 :: p in g && p !in m.table;
  }

  /** What one client does is invisible to every other. */
  lemma OtherStays(m: Space, m': Space, o: Space)
    requires Sound(m) && Sound(m') && Frame(m, Global(m.sys), m', Global(m'.sys))
    requires Sound(o) && o.sys == m.sys && Apart(m, o)
    ensures var o' := o.(sys := m'.sys); Sound(o') && ViewOf(o') == ViewOf(o) && Apart(m', o)
  {
    OtherOver(m, Global(m.sys), m', Global(m'.sys), o);
  }

  lemma Now(w: Cluster, i: nat)
    requires ClusterOk(w) && i < |w.clients|
    ensures Sound(At(w, i)) && Reaches(At(w, i)) && At(w, i).rbrk < 1024 && Abs(w).views[i] == ViewOf(At(w, i))
  {
    SoundReaches(At(w, i));
  }

  /** A request meets its effect: the client's own memory, and nobody else's. */
  ghost predicate Meets(w: Cluster, q: Request, s: Turn)
    requires ClusterOk(w)
  {
    && ClusterOk(s.w) && |s.w.sys| == |w.sys| && |s.w.clients| == |w.clients|
    && Right(|w.sys|, Abs(w), q, s.r) && Abs(s.w) == Effect(Abs(w), q, s.r)
  }

  lemma ServeStep(w: Cluster, q: Request)
    requires ClusterOk(w) && Allowed(Abs(w), q)
    ensures Reaches(At(w, q.client)) && w.clients[q.client].rbrk <= 1024
    ensures Meets(w, q, Serve(w, q))
  {
    Now(w, q.client);
    ExecStep(At(w, q.client), q.op);
    var s := Exec(At(w, q.client), q.op);
    ClusterAfter(w, q, s);
  }

  lemma ClusterAfter(w: Cluster, q: Request, s: Done)
    requires ClusterOk(w) && q.client < |w.clients| && Sound(At(w, q.client)) && Refines(At(w, q.client), q.op, s)
    ensures Meets(w, q, Turn(Cluster(s.m.sys, w.clients[q.client := s.m]), s.r))
  {
    var w' := Cluster(s.m.sys, w.clients[q.client := s.m]);
    OthersStay(w, q.client, s.m, w');
    ViewsAfter(w, q.client, s.m, w');
    EffectIs(Abs(w), q, s.r, Global(s.m.sys).Keys, ViewOf(s.m));
  }

  lemma ViewsAfter(w: Cluster, i: nat, m': Space, w': Cluster)
    requires ClusterOk(w) && i < |w.clients| && ClusterOk(w') && Sound(m')
    requires w' == Cluster(m'.sys, w.clients[i := m']) && At(w', i) == m'
    requires forall j: nat | j < |w.clients| && j != i :: ViewOf(At(w', j)) == ViewOf(At(w, j))
    ensures Abs(w').views == Abs(w).views[i := ViewOf(m')] && Abs(w).views[i] == ViewOf(At(w, i))
  {}

  lemma EffectIs(a: Machine, q: Request, r: Result, live: set<u32>, v: View)
    requires q.client < |a.views|
    requires live == LiveAfter(a.live, a.views[q.client], q.op, r) && v == After(a.views[q.client], q.op, r)
    ensures Effect(a, q, r) == Machine(live, a.views[q.client := v])
  {}

  lemma OthersStay(w: Cluster, i: nat, m': Space, w': Cluster)
    requires ClusterOk(w) && i < |w.clients| && Sound(m') && Frame(At(w, i), Global(w.sys), m', Global(m'.sys))
    requires w' == Cluster(m'.sys, w.clients[i := m'])
    ensures ClusterOk(w') && At(w', i) == m'
    ensures forall j: nat | j < |w.clients| && j != i :: ViewOf(At(w', j)) == ViewOf(At(w, j))
  {
    assert At(w', i) == m';
    forall j: nat | j < |w.clients| && j != i
      ensures Sound(At(w', j)) && ViewOf(At(w', j)) == ViewOf(At(w, j)) && Apart(m', w.clients[j])
    {
      assert Apart(w.clients[i], w.clients[j]);
      OtherStays(At(w, i), m', At(w, j));
    }
    ApartAfter(w, i, m');
  }

  lemma ApartAfter(w: Cluster, i: nat, m': Space)
    requires i < |w.clients|
    requires forall j: nat, k: nat | j < |w.clients| && k < |w.clients| && j != k :: Apart(w.clients[j], w.clients[k])
    requires forall j: nat | j < |w.clients| && j != i :: Apart(m', w.clients[j])
    ensures var cs := w.clients[i := m'];
      forall j: nat, k: nat | j < |cs| && k < |cs| && j != k :: Apart(cs[j], cs[k])
  {
    forall j: nat | j < |w.clients| && j != i ensures Apart(w.clients[j], m') { assert Apart(m', w.clients[j]); }
  }

  // ----- runs

  datatype Log = Log(w: Cluster, results: seq<Result>)

  /** Every request comes from a client, and no free takes the page that its client has cached. */
  ghost predicate AllowedAlong(w: Cluster, qs: seq<Request>)
    requires ClusterOk(w)
    decreases |qs|
  {
    qs != [] ==>
      && Allowed(Abs(w), qs[0])
      && (ServeStep(w, qs[0]); AllowedAlong(Serve(w, qs[0]).w, qs[1..]))
  }

  ghost function Run(w: Cluster, qs: seq<Request>): (t: Log)
    requires ClusterOk(w) && AllowedAlong(w, qs)
    ensures |t.results| == |qs|
    decreases |qs|
  {
    if qs == [] then Log(w, [])
    else
      ServeStep(w, qs[0]);
      var s := Serve(w, qs[0]);
      var t := Run(s.w, qs[1..]);
      Log(t.w, [s.r] + t.results)
  }

  ghost function Replay(a: Machine, qs: seq<Request>, rs: seq<Result>): Machine
    requires |rs| == |qs|
    decreases |qs|
  {
    if qs == [] then a else Replay(Effect(a, qs[0], rs[0]), qs[1..], rs[1..])
  }

  ghost predicate AllRight(servers: nat, a: Machine, qs: seq<Request>, rs: seq<Result>)
    requires |rs| == |qs| && 0 < servers
    decreases |qs|
  {
    qs != [] ==> Right(servers, a, qs[0], rs[0]) && AllRight(servers, Effect(a, qs[0], rs[0]), qs[1..], rs[1..])
  }

  /** Any interleaving of allocations, reads, writes, releases and safe frees of any number of clients,
      each over its single cache line and all over the same servers, behaves as one flat memory for
      every client: each read returns the bytes that this client last wrote there. */
  lemma {:induction false} RunRefinesFlat(w: Cluster, qs: seq<Request>)
    requires ClusterOk(w) && AllowedAlong(w, qs)
    ensures var t := Run(w, qs);
      && ClusterOk(t.w)
      && AllRight(|w.sys|, Abs(w), qs, t.results)
      && Abs(t.w) == Replay(Abs(w), qs, t.results)
    decreases |qs|
  {
    if qs != [] {
      ServeStep(w, qs[0]);
      var s := Serve(w, qs[0]);
      RunRefinesFlat(s.w, qs[1..]);
      var t := Run(w, qs);
      assert t.results[1..] == Run(s.w, qs[1..]).results;
    }
  }

  /** Without frees every run of existing clients is allowed. */
  lemma {:induction false} NoFreesSafe(w: Cluster, qs: seq<Request>)
    requires ClusterOk(w) && forall q | q in qs :: q.client < |w.clients| && !q.op.Free?
    ensures AllowedAlong(w, qs)
    decreases |qs|
  {
    if qs != [] {
      assert qs[0] in qs;
      ServeStep(w, qs[0]);
      NoFreesSafe(Serve(w, qs[0]).w, qs[1..]);
    }
  }

  /** The memory of client `i` after a run is determined by its own requests. */
  ghost function Alone(v: View, i: nat, qs: seq<Request>, rs: seq<Result>): View
    requires |rs| == |qs|
    decreases |qs|
  {
    if qs == [] then v
    else Alone(if qs[0].client == i then After(v, qs[0].op, rs[0]) else v, i, qs[1..], rs[1..])
  }

  lemma {:induction false} OwnRequestsOnly(a: Machine, i: nat, qs: seq<Request>, rs: seq<Result>)
    requires |rs| == |qs| && i < |a.views|
    ensures i < |Replay(a, qs, rs).views| && Replay(a, qs, rs).views[i] == Alone(a.views[i], i, qs, rs)
    decreases |qs|
  {
    if qs != [] { OwnRequestsOnly(Effect(a, qs[0], rs[0]), i, qs[1..], rs[1..]); }
  }

  /** Clients start with an empty cache, an empty table, and no memory. */
  lemma StartIsOk(sys: System, clients: seq<Space>)
    requires AllGood(sys) && forall i: nat | i < |clients| :: Fresh(clients[i])
    ensures ClusterOk(Cluster(sys, clients))
    ensures forall i: nat | i < |clients| :: Abs(Cluster(sys, clients)).views[i].pages == map[]
  {
    var w := Cluster(sys, clients);
    forall i: nat | i < |clients| ensures Sound(At(w, i)) && Flat(At(w, i)) == map[] { FreshIsSound(At(w, i)); }
    forall i: nat, j: nat | i < |clients| && j < |clients| && i != j ensures Apart(clients[i], clients[j]) {
      assert Fresh(clients[i]);
    }
  }
}
