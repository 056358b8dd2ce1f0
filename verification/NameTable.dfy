/**
  The name server (src/sys/pm/name/main.c): a fixed table of names with a node, a port and a number
  of links, read as a map from names.
 */
module NameTable {
  import opened Disk
  import opened SlotTable

  const ENOENT := -2
  const ENAMETOOLONG := -36

  /** NANVIX_PNAME_MAX and NANVIX_PROC_NAME_MAX. */
  const ENTRIES := 256
  const NAME_LIMIT := 64

  /** An entry of `procs[]`. */
  datatype Proc = Proc(nodenum: int, port: int, name: CString, refcount: int)

  type Procs = s: seq<Proc> | |s| == 256 witness seq(256, _ => Proc(-1, -1, [], 0))

  /** The table, and `nr_registration`. */
  datatype State = State(procs: Procs, registered: int)

  datatype Outcome = Outcome(st: State, ret: int)

  // ----- what the code does

  /** nanvix_name_is_valid(): 0 or a negative code. */
  function CheckName(name: CString): int
  {
    if name == [] then EINVAL else if |name| >= NAME_LIMIT - 1 then ENAMETOOLONG else 0
  }

  /** The first entry from `i` on with the given name, or 256. */
  function FindName(ps: Procs, name: CString, i: nat): (r: nat)
    requires i <= 256
    ensures i <= r <= 256 && (r < 256 ==> ps[r].name == name)
    ensures forall j: nat | i <= j < r :: ps[j].name != name
    decreases 256 - i, name
  {
    if i == 256 || ps[i].name == name then i else FindName(ps, name, i + 1)
  }

  /** The first entry from `i` on that is free, or 256. */
  function FindFree(ps: Procs, i: nat): (r: nat)
    requires i <= 256
    ensures i <= r <= 256 && (r < 256 ==> ps[r].nodenum < 0)
    ensures forall j: nat | i <= j < r :: ps[j].nodenum >= 0
    decreases 256 - i, ps
  {
    if i == 256 || ps[i].nodenum < 0 then i else FindFree(ps, i + 1)
  }

  /** do_name_lookup(): a code and the node found, or -1. */
  function LookupName(st: State, name: CString): (int, int)
  {
    if CheckName(name) < 0 then (CheckName(name), -1)
    else
      var i := FindName(st.procs, name, 0);
      if i < 256 then (0, st.procs[i].nodenum) else (ENOENT, -1)
  }

  /** One more link of entry `i`. */
  function Connected(st: State, i: nat, p: Proc): State
    requires i < 256
  {
    State(st.procs[i := Reconnected(p)], st.registered + 1)
  }

  /** The entry with one more link. */
  function Reconnected(p: Proc): Proc { p.(refcount := p.refcount + 1) }

  /** do_name_link() from a node that `valid` accepts. */
  function Link(st: State, valid: bool, nodenum: int, port: byte, name: CString): Outcome
  {
    if !valid then Outcome(st, EINVAL)
    else if CheckName(name) < 0 then Outcome(st, CheckName(name))
    else if st.registered >= ENTRIES then Outcome(st, EINVAL)
    else
      var i := FindName(st.procs, name, 0);
      if i < 256 then
        if st.procs[i].nodenum == nodenum && st.procs[i].port == port
        then Outcome(Connected(st, i, st.procs[i]), 0)
        else Outcome(st, EINVAL)
      else
        var k := FindFree(st.procs, 0);
        if k < 256 then Outcome(Connected(st, k, Proc(nodenum, port, name, st.procs[k].refcount)), 0)
        else Outcome(st, EINVAL)
  }

  /** The first used entry from `i` on with the given name, or 256. */
  function FindUsed(ps: Procs, name: CString, i: nat): (r: nat)
    requires i <= 256
    ensures i <= r <= 256 && (r < 256 ==> ps[r].nodenum >= 0 && ps[r].name == name)
    ensures forall j: nat | i <= j < r :: !(ps[j].nodenum >= 0 && ps[j].name == name)
    decreases 256 - i, name
  {
    if i == 256 || (ps[i].nodenum >= 0 && ps[i].name == name) then i else FindUsed(ps, name, i + 1)
  }

  /** The entry after one link was removed. */
  function Disconnected(p: Proc): Proc
  {
    if p.refcount == 1 then Proc(-1, -1, [], 0) else p.(refcount := p.refcount - 1)
  }

  /** do_name_unlink(): only the port is compared. */
  function Unlink(st: State, port: byte, name: CString): Outcome
  {
    if CheckName(name) < 0 then Outcome(st, CheckName(name))
    else
      var i := FindUsed(st.procs, name, 0);
      if i == 256 then Outcome(st, ENOENT)
      else if st.procs[i].port != port then Outcome(st, EINVAL)
      else Outcome(State(st.procs[i := Disconnected(st.procs[i])], st.registered - 1), 0)
  }

  /** do_name_init(): entry 0 is preset. */
  function Init(node: nat, port: int, io0: CString): State
  {
    State(seq(256, i => if i == 0 then Proc(node, port, io0, 1) else Proc(-1, -1, [], 0)), 0)
  }

  // ----- the invariant

  /** An entry is free iff its name is empty iff its count is zero. */
  predicate ProcOk(p: Proc)
  {
    p.refcount >= 0 && (p.nodenum < 0 <==> p.name == []) && (p.nodenum < 0 <==> p.refcount == 0)
  }

  function Total(ps: seq<Proc>): int { if ps == [] then 0 else ps[0].refcount + Total(ps[1..]) }

  datatype Entry = Entry(node: int, port: int, links: int)

  function SlotOf(p: Proc): Slot<CString, Entry>
  {
    if p.nodenum < 0 then Free else Used(p.name, Entry(p.nodenum, p.port, p.refcount))
  }

  function Slots(ps: Procs): (s: seq<Slot<CString, Entry>>)
    ensures |s| == 256 && forall i: nat | i < 256 :: s[i] == SlotOf(ps[i])
  {
    seq(256, i requires 0 <= i < 256 => SlotOf(ps[i]))
  }

  ghost predicate Inv(st: State)
  {
    && (forall i: nat | i < 256 :: ProcOk(st.procs[i]))
    && Distinct(Slots(st.procs))
    && Total(st.procs) == st.registered + 1
  }

  /** The map from names to node, port and number of links. */
  ghost function Names(st: State): map<CString, Entry> { AsMap(Slots(st.procs)) }

  lemma {:induction false} TotalUpdate(ps: seq<Proc>, i: nat, p: Proc)
    requires i < |ps|
    ensures Total(ps[i := p]) == Total(ps) - ps[i].refcount + p.refcount
  {
    if i == 0 {
      assert ps[0 := p][1..] == ps[1..];
    } else {
      assert ps[i := p][1..] == ps[1..][i - 1 := p];
      TotalUpdate(ps[1..], i - 1, p);
    }
  }

  lemma {:induction false} TotalZero(ps: seq<Proc>)
    requires forall i: nat | i < |ps| :: ps[i].refcount == 0
    ensures Total(ps) == 0
  {
    if ps != [] { TotalZero(ps[1..]); }
  }

  lemma {:induction false} TotalAtLeast(ps: seq<Proc>)
    requires forall i: nat | i < |ps| :: ps[i].refcount >= 1
    ensures Total(ps) >= |ps|
  {
    if ps != [] { TotalAtLeast(ps[1..]); }
  }

  lemma SlotsUpdate(ps: Procs, i: nat, p: Proc)
    requires i < 256
    ensures Slots(ps[i := p]) == Slots(ps)[i := SlotOf(p)]
  {}

  lemma InitInv(node: nat, port: int, io0: CString)
    requires io0 != []
    ensures Inv(Init(node, port, io0))
    ensures Names(Init(node, port, io0)) == map[io0 := Entry(node, port, 1)]
  {
    var st := Init(node, port, io0);
    assert st.procs[1..] == seq(255, _ => Proc(-1, -1, [], 0));
    TotalZero(st.procs[1..]);
    var t := Slots(st.procs);
    assert Holds(t, 0, io0);
    SameMap(t, map[io0 := Entry(node, port, 1)]);
  }

  /** The searches of the server find exactly the names of the map. */
  lemma {:induction false} FindIsMap(st: State, name: CString)
    requires Inv(st) && name != []
    ensures var i := FindName(st.procs, name, 0);
      && FindUsed(st.procs, name, 0) == i
      && (name in Names(st) <==> i < 256)
      && (i < 256 ==> SlotOf(st.procs[i]) == Used(name, Names(st)[name]))
  {
    var t := Slots(st.procs);
    var i, j, k := FindName(st.procs, name, 0), FindUsed(st.procs, name, 0), Find(t, name);
    FindIsLookup(t, name);
    if i < 256 { assert ProcOk(st.procs[i]) && Holds(t, i, name); }
    if j < 256 { assert Holds(t, j, name); }
    if k < 256 { assert Holds(t, k, name) && st.procs[k].name == name && st.procs[k].nodenum >= 0; }
  }

  /** do_name_lookup() is the map. */
  lemma LookupIsMap(st: State, name: CString)
    requires Inv(st)
    ensures var r := LookupName(st, name);
      && (r.0 == 0 <==> CheckName(name) == 0 && name in Names(st))
      && (r.0 == 0 ==> r.1 == Names(st)[name].node)
      && (CheckName(name) == 0 && name !in Names(st) ==> r == (ENOENT, -1))
  {
    if CheckName(name) == 0 { FindIsMap(st, name); }
  }

  // ----- one request

  /** Entry `i` becomes `p`, whose slot is `s`. */
  lemma EntryStep(st: State, i: nat, p: Proc, d: int, s: Slot<CString, Entry>)
    requires Inv(st) && i < 256 && ProcOk(p) && p.refcount == st.procs[i].refcount + d
    requires s == SlotOf(p) && Distinct(Slots(st.procs)[i := s])
    ensures Inv(State(st.procs[i := p], st.registered + d))
    ensures Names(State(st.procs[i := p], st.registered + d)) == AsMap(Slots(st.procs)[i := s])
  {
    TotalUpdate(st.procs, i, p);
    SlotsUpdate(st.procs, i, p);
  }

  /** There is no free entry exactly when the map holds 256 names; then there are at least 255
      registrations. */
  lemma {:induction false} FreeEntryIff(st: State)
    requires Inv(st)
    ensures FindFree(st.procs, 0) == 256 <==> |Names(st)| == 256
    ensures FindFree(st.procs, 0) == 256 ==> st.registered >= 255
  {
    var t := Slots(st.procs);
    FullIffCount(t);
    assert FindFree(st.procs, 0) == 256 <==> forall i: nat | i < 256 :: t[i].Used?;
    if FindFree(st.procs, 0) == 256 {
      forall i: nat | i < 256 ensures st.procs[i].refcount >= 1 { assert ProcOk(st.procs[i]); }
      TotalAtLeast(st.procs);
    }
  }

  /** A new name in a free entry. */
  lemma NewName(st: State, k: nat, name: CString, p: Proc, e: Entry)
    requires Inv(st) && k < 256 && st.procs[k].nodenum < 0 && name !in Names(st)
    requires ProcOk(p) && p.refcount == 1 && SlotOf(p) == Used(name, e)
    ensures Inv(State(st.procs[k := p], st.registered + 1))
    ensures Names(State(st.procs[k := p], st.registered + 1)) == Names(st)[name := e]
  {
    assert ProcOk(st.procs[k]);
    StoreFree(Slots(st.procs), k, name, e);
    EntryStep(st, k, p, 1, Used(name, e));
  }

  /** A name whose number of links changes by `d`, and does not become zero. */
  lemma OtherLinks(st: State, i: nat, name: CString, p: Proc, e: Entry, d: int)
    requires Inv(st) && i < 256 && st.procs[i].nodenum >= 0 && st.procs[i].name == name
    requires ProcOk(p) && p.refcount == st.procs[i].refcount + d && SlotOf(p) == Used(name, e)
    ensures Inv(State(st.procs[i := p], st.registered + d))
    ensures Names(State(st.procs[i := p], st.registered + d)) == Names(st)[name := e]
  {
    var t := Slots(st.procs);
    assert t[i].key == name;
    Revalue(t, i, e);
    EntryStep(st, i, p, d, Used(t[i].key, e));
  }

  /** A name that loses its last link. */
  lemma LastLink(st: State, i: nat, name: CString, p: Proc)
    requires Inv(st) && i < 256 && st.procs[i].nodenum >= 0 && st.procs[i].name == name && st.procs[i].refcount == 1
    requires ProcOk(p) && p.nodenum < 0
    ensures Inv(State(st.procs[i := p], st.registered - 1))
    ensures Names(State(st.procs[i := p], st.registered - 1)) == Names(st) - {name}
  {
    var t := Slots(st.procs);
    assert t[i].key == name;
    Release(t, i);
    EntryStep(st, i, p, -1, Free);
  }

  // ----- the abstract name server

  type NameMap = map<CString, Entry>

  /** The names with their links, and the number of registrations. */
  datatype Book = Book(names: NameMap, registered: int)

  ghost function Abs(st: State): Book { Book(Names(st), st.registered) }

  /** What a link returns. A new name is refused for lack of room iff 256 names are present, or from
      256 registrations on. */
  function LinkCode(b: Book, valid: bool, node: int, port: byte, name: CString): int
  {
    if !valid then EINVAL
    else if CheckName(name) < 0 then CheckName(name)
    else if b.registered >= ENTRIES then EINVAL
    else if name in b.names then
      if b.names[name].node == node && b.names[name].port == port then 0 else EINVAL
    else if |b.names| == 256 then EINVAL
    else 0
  }

  function UnlinkCode(b: Book, port: byte, name: CString): int
  {
    if CheckName(name) < 0 then CheckName(name)
    else if name !in b.names then ENOENT
    else if b.names[name].port != port then EINVAL
    else 0
  }

  function LookupCode(b: Book, name: CString): int
  {
    if CheckName(name) < 0 then CheckName(name) else if name in b.names then 0 else ENOENT
  }

  datatype Request =
    | LinkReq(valid: bool, node: int, port: byte, name: CString)
    | UnlinkReq(port: byte, name: CString)
    | LookupReq(name: CString)

  /** What a request leaves, returns, and finds. */
  datatype Reply = Reply(st: State, ret: int, node: int)

  function Exec(st: State, q: Request): Reply
  {
    match q
    case LinkReq(valid, node, port, name) => var o := Link(st, valid, node, port, name); Reply(o.st, o.ret, -1)
    case UnlinkReq(port, name) => var o := Unlink(st, port, name); Reply(o.st, o.ret, -1)
    case LookupReq(name) => var r := LookupName(st, name); Reply(st, r.0, r.1)
  }

  function Relinked(m: NameMap, node: int, port: byte, name: CString): NameMap
  {
    m[name := if name in m then MoreOf(m[name]) else Entry(node, port, 1)]
  }

  function Delinked(m: NameMap, name: CString): NameMap
    requires name in m
  {
    if m[name].links == 1 then m - {name} else m[name := m[name].(links := m[name].links - 1)]
  }

  function Effect(b: Book, q: Request): Book
  {
    match q
    case LinkReq(valid, node, port, name) =>
      if LinkCode(b, valid, node, port, name) == 0
      then Book(Relinked(b.names, node, port, name), b.registered + 1) else b
    case UnlinkReq(port, name) =>
      if UnlinkCode(b, port, name) == 0 && name in b.names then Book(Delinked(b.names, name), b.registered - 1) else b
    case LookupReq(_) => b
  }

  /** Which replies are right. */
  predicate Correct(b: Book, q: Request, ret: int, node: int)
  {
    match q
    case LinkReq(valid, n, port, name) => ret == LinkCode(b, valid, n, port, name)
    case UnlinkReq(port, name) => ret == UnlinkCode(b, port, name)
    case LookupReq(name) =>
      ret == LookupCode(b, name) && node == if ret == 0 && name in b.names then b.names[name].node else -1
  }

  /** Node numbers that the kernel accepts are not negative. */
  predicate Honest(q: Request) { q.LinkReq? && q.valid ==> q.node >= 0 }

  ghost predicate Refines(st: State, q: Request, r: Reply)
  {
    Inv(r.st) && Correct(Abs(st), q, r.ret, r.node) && Abs(r.st) == Effect(Abs(st), q)
  }

  /** A request whose outcome on the map is known. */
  lemma RefinesBy(st: State, q: Request, r: Reply, b: Book, b': Book)
    requires Inv(r.st) && b == Abs(st) && b' == Abs(r.st) && Correct(b, q, r.ret, r.node) && b' == Effect(b, q)
    ensures Refines(st, q, r)
  {}

  /** A link of a name that is present: one link more for the node and port that hold it. */
  lemma {:induction false} LinkAgain(st: State, node: nat, port: byte, name: CString)
    requires Inv(st) && CheckName(name) == 0 && name in Names(st) && st.registered < 256
    ensures Refines(st, LinkReq(true, node, port, name), Exec(st, LinkReq(true, node, port, name)))
  {
    var e := Names(st)[name];
    FindIsMap(st, name);
    if e.node == node && e.port == port {
      LinkMore(st, node, port, name, FindName(st.procs, name, 0), e);
    } else {
      var b := Abs(st);
      RefinesBy(st, LinkReq(true, node, port, name), Reply(st, EINVAL, -1), b, b);
    }
  }

  lemma {:induction false} LinkMore(st: State, node: nat, port: byte, name: CString, i: nat, e: Entry)
    requires Inv(st) && CheckName(name) == 0 && name in Names(st) && st.registered < 256
    requires i == FindName(st.procs, name, 0) < 256 && e == Names(st)[name] && SlotOf(st.procs[i]) == Used(name, e)
    requires e.node == node && e.port == port
    ensures Refines(st, LinkReq(true, node, port, name), Exec(st, LinkReq(true, node, port, name)))
  {
    var p, m := st.procs[i], Names(st);
    assert ProcOk(p);
    var p' := Reconnected(p);
    OtherLinks(st, i, name, p', MoreOf(e), 1);
    var st' := State(st.procs[i := p'], st.registered + 1);
    MoreInBook(Book(m, st.registered), node, port, name);
    RefinesBy(st, LinkReq(true, node, port, name), Reply(st', 0, -1), Book(m, st.registered), Abs(st'));
  }

  function MoreOf(e: Entry): Entry { e.(links := e.links + 1) }

  lemma MoreInBook(b: Book, node: nat, port: byte, name: CString)
    requires CheckName(name) == 0 && b.registered < 256 && name in b.names
    requires b.names[name].node == node && b.names[name].port == port
    ensures Correct(b, LinkReq(true, node, port, name), 0, -1)
    ensures var e := b.names[name];
      Effect(b, LinkReq(true, node, port, name)) == Book(b.names[name := MoreOf(e)], b.registered + 1)
  {}

  /** A link of a new name: added, or refused iff all 256 entries hold names. */
  lemma {:induction false} LinkNew(st: State, node: nat, port: byte, name: CString)
    requires Inv(st) && CheckName(name) == 0 && name !in Names(st) && st.registered < 256
    ensures Refines(st, LinkReq(true, node, port, name), Exec(st, LinkReq(true, node, port, name)))
  {
    var m, k := Names(st), FindFree(st.procs, 0);
    FindIsMap(st, name);
    FreeEntryIff(st);
    if k < 256 {
      assert ProcOk(st.procs[k]);
      var p := Proc(node, port, name, 1);
      NewName(st, k, name, p, Entry(node, port, 1));
      var st' := State(st.procs[k := p], st.registered + 1);
      RefinesBy(st, LinkReq(true, node, port, name), Reply(st', 0, -1), Book(m, st.registered), Abs(st'));
    } else {
      RefinesBy(st, LinkReq(true, node, port, name), Reply(st, EINVAL, -1), Book(m, st.registered), Book(m, st.registered));
    }
  }

  lemma LinkRefines(st: State, valid: bool, node: int, port: byte, name: CString)
    requires Inv(st) && (valid ==> node >= 0)
    ensures Refines(st, LinkReq(valid, node, port, name), Exec(st, LinkReq(valid, node, port, name)))
  {
    if valid && CheckName(name) == 0 && st.registered < 256 {
      if name in Names(st) { LinkAgain(st, node, port, name); } else { LinkNew(st, node, port, name); }
    } else {
      var b := Abs(st);
      RefinesBy(st, LinkReq(valid, node, port, name), Exec(st, LinkReq(valid, node, port, name)), b, b);
    }
  }

  /** An unlink takes one link away, and the name with the last one. */
  lemma {:induction false} UnlinkRefines(st: State, port: byte, name: CString)
    requires Inv(st)
    ensures Refines(st, UnlinkReq(port, name), Exec(st, UnlinkReq(port, name)))
  {
    var b := Abs(st);
    if CheckName(name) == 0 && name in b.names && b.names[name].port == port {
      UnlinkFound(st, port, name);
    } else {
      if CheckName(name) == 0 { FindIsMap(st, name); }
      RefinesBy(st, UnlinkReq(port, name), Exec(st, UnlinkReq(port, name)), b, b);
    }
  }

  lemma {:induction false} UnlinkFound(st: State, port: byte, name: CString)
    requires Inv(st) && CheckName(name) == 0 && name in Names(st) && Names(st)[name].port == port
    ensures Refines(st, UnlinkReq(port, name), Exec(st, UnlinkReq(port, name)))
  {
    var m, i := Names(st), FindUsed(st.procs, name, 0);
    FindIsMap(st, name);
    var p, e := st.procs[i], m[name];
    assert ProcOk(p);
    var p' := Disconnected(p);
    if p.refcount == 1 { LastLink(st, i, name, p'); } else { OtherLinks(st, i, name, p', e.(links := e.links - 1), -1); }
    var st' := State(st.procs[i := p'], st.registered - 1);
    RefinesBy(st, UnlinkReq(port, name), Reply(st', 0, -1), Book(m, st.registered), Abs(st'));
  }

  lemma LookupRefines(st: State, name: CString)
    requires Inv(st)
    ensures Refines(st, LookupReq(name), Exec(st, LookupReq(name)))
  {
    LookupIsMap(st, name);
  }

  lemma ExecStep(st: State, q: Request)
    requires Inv(st) && Honest(q)
    ensures Refines(st, q, Exec(st, q))
  {
    match q
    case LinkReq(valid, node, port, name) => LinkRefines(st, valid, node, port, name);
    case UnlinkReq(port, name) => UnlinkRefines(st, port, name);
    case LookupReq(name) => LookupRefines(st, name);
  }

  // ----- runs

  datatype Trace = Trace(st: State, rets: seq<int>, nodes: seq<int>)

  function Run(st: State, qs: seq<Request>): (t: Trace)
    ensures |t.rets| == |t.nodes| == |qs|
    decreases |qs|
  {
    if qs == [] then Trace(st, [], [])
    else
      var r := Exec(st, qs[0]);
      var t := Run(r.st, qs[1..]);
      Trace(t.st, [r.ret] + t.rets, [r.node] + t.nodes)
  }

  function Replay(b: Book, qs: seq<Request>): Book
    decreases |qs|
  {
    if qs == [] then b else Replay(Effect(b, qs[0]), qs[1..])
  }

  predicate AllCorrect(b: Book, qs: seq<Request>, rets: seq<int>, nodes: seq<int>)
    requires |rets| == |nodes| == |qs|
    decreases |qs|
  {
    qs != [] ==>
      && Correct(b, qs[0], rets[0], nodes[0])
      && AllCorrect(Effect(b, qs[0]), qs[1..], rets[1..], nodes[1..])
  }

  /** In every run of links, unlinks and lookups the table is a map from names: every code and every
      node found is that of the map; live names are unique, an entry is free iff its name is empty iff
      its count is zero, and the counts add up to the registrations plus one for the preset entry. */
  lemma {:induction false} RunRefinesMap(st: State, qs: seq<Request>)
    requires Inv(st) && forall i: nat | i < |qs| :: Honest(qs[i])
    ensures var t := Run(st, qs);
      Inv(t.st) && AllCorrect(Abs(st), qs, t.rets, t.nodes) && Abs(t.st) == Replay(Abs(st), qs)
    decreases |qs|
  {
    if qs != [] {
      var r := Exec(st, qs[0]);
      ExecStep(st, qs[0]);
      RunRefinesMap(r.st, qs[1..]);
      var t := Run(st, qs);
      assert t.rets[1..] == Run(r.st, qs[1..]).rets && t.nodes[1..] == Run(r.st, qs[1..]).nodes;
    }
  }

  // ----- the server as it runs

  class Server {
    const procs: array<Proc>
    var registered: int

    ghost predicate Valid()
      reads this
    {
      procs.Length == 256
    }

    ghost function View(): State
      requires Valid()
      reads this, procs
    {
      State(procs[..], registered)
    }

    /** do_name_init(). */
    constructor (node: nat, port: int, io0: CString)
      ensures Valid() && View() == Init(node, port, io0)
    {
      procs := new Proc[256](_ => Proc(-1, -1, [], 0));
      registered := 0;
      new;
      procs[0] := Proc(node, port, io0, 1);
      assert procs[..] == Init(node, port, io0).procs;
    }

    /** The search for a name, in all entries. */
    method Search(name: CString) returns (i: nat)
      requires Valid()
      ensures i == FindName(procs[..], name, 0)
    {
      i := 0;
      while i < 256
        invariant i <= 256 && FindName(procs[..], name, 0) == FindName(procs[..], name, i)
      {
        if procs[i].name == name { return; }
        i := i + 1;
      }
    }

    /** The search for a free entry. */
    method SearchFree() returns (i: nat)
      requires Valid()
      ensures i == FindFree(procs[..], 0)
    {
      i := 0;
      while i < 256
        invariant i <= 256 && FindFree(procs[..], 0) == FindFree(procs[..], i)
      {
        if procs[i].nodenum < 0 { return; }
        i := i + 1;
      }
    }

    /** do_name_lookup(). */
    method DoLookup(name: CString) returns (ret: int, node: int)
      requires Valid()
      ensures (ret, node) == LookupName(View(), name)
    {
      ret := CheckName(name);
      if ret < 0 { return ret, -1; }
      var i := Search(name);
      if i < 256 { return 0, procs[i].nodenum; }
      return ENOENT, -1;
    }

    /** do_name_link(). */
    method DoLink(valid: bool, nodenum: int, port: byte, name: CString) returns (ret: int)
      requires Valid()
      modifies this, procs
      ensures Valid() && Outcome(View(), ret) == Link(old(View()), valid, nodenum, port, name)
    {
      if !valid { return EINVAL; }
      ret := CheckName(name);
      if ret < 0 { return; }
      if registered >= ENTRIES { return EINVAL; }
      var i := Search(name);
      if i < 256 {
        if procs[i].nodenum != nodenum || procs[i].port != port { return EINVAL; }
      } else {
        i := SearchFree();
        if i == 256 { return EINVAL; }
        procs[i] := procs[i].(name := name);
        procs[i] := procs[i].(nodenum := nodenum);
        procs[i] := procs[i].(port := port);
      }
      procs[i] := procs[i].(refcount := procs[i].refcount + 1);
      registered := registered + 1;
      return 0;
    }

    /** do_name_unlink(). */
    method DoUnlink(port: byte, name: CString) returns (ret: int)
      requires Valid()
      modifies this, procs
      ensures Valid() && Outcome(View(), ret) == Unlink(old(View()), port, name)
    {
      ret := CheckName(name);
      if ret < 0 { return; }
      var i := 0;
      while i < 256
        invariant i <= 256 && Valid() && View() == old(View())
        invariant FindUsed(procs[..], name, 0) == FindUsed(procs[..], name, i)
      {
        if procs[i].nodenum >= 0 && procs[i].name == name {
          if procs[i].port != port { return EINVAL; }
          registered := registered - 1;
          procs[i] := procs[i].(refcount := procs[i].refcount - 1);
          if procs[i].refcount == 0 {
            procs[i] := procs[i].(name := []);
            procs[i] := procs[i].(nodenum := -1, port := -1);
          }
          return 0;
        }
        i := i + 1;
      }
      return ENOENT;
    }
  }
}
