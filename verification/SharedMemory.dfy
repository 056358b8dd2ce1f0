/**
  Shared memory regions of the System V server (src/sys/pm/sysv/shm/shm.c): a table of named,
  reference-counted regions whose removal is deferred until the last reference is gone.
 */
module SharedMemory {
  import opened Disk

  const EPERM := -1
  const EAGAIN := -11
  const EACCES := -13
  const EEXIST := -17
  const ENFILE := -23
  const EFBIG := -27
  const ENOTSUP := -95

  /** NANVIX_SHM_MAX, NANVIX_SHM_NAME_MAX and NANVIX_SHM_SIZE_MAX. */
  const REGIONS := 128
  const NAME_LIMIT := 64
  const SIZE_LIMIT := 4096

  /** A slot of the table: whether it is in use, whether its name is still linked, whether it may be
      written, its name, owner, number of references, size, and remote page (0 for none). */
  datatype Region = Region(used: bool, linked: bool, writable: bool, name: CString, owner: int, refs: nat, size: nat, page: u32)

  type Regions = s: seq<Region> | |s| == 128
    witness seq(128, _ => Region(false, false, false, [], 0, 0, 0, 0))

  /** The table, and the remote pages that the memory server holds for this server. */
  datatype State = State(regions: Regions, live: set<u32>)

  /** A return code with the page a call reports, or a failed assertion. */
  datatype Outcome = Done(st: State, ret: int, page: u32) | Abort

  /** Opening flags: those the calls look at, and any other bit. */
  datatype Flags = Flags(creat: bool, excl: bool, trunc: bool, write: bool, other: bool)

  /** Permission bits: the owner's write bit, and any bit beyond the owner's read and write bits. */
  datatype Mode = Mode(write: bool, other: bool)

  predicate ValidName(name: CString) { 0 < |name| < NAME_LIMIT - 1 }

  // ----- what the code does

  /** The search of shm_get(), from slot `i` on: 128 if no used region has the name. */
  function Lookup(rs: Regions, name: CString, i: nat): (r: nat)
    requires i <= 128
    ensures i <= r <= 128 && (r < 128 ==> rs[r].used && rs[r].name == name)
    ensures forall j: nat | i <= j < r :: !(rs[j].used && rs[j].name == name)
    decreases 128 - i, name
  {
    if i == 128 || (rs[i].used && rs[i].name == name) then i else Lookup(rs, name, i + 1)
  }

  /** resource_alloc(): the first unused slot, or 128. */
  function Unused(rs: Regions, i: nat): (r: nat)
    requires i <= 128
    ensures i <= r <= 128 && (r < 128 ==> !rs[r].used)
    ensures forall j: nat | i <= j < r :: rs[j].used
    decreases 128 - i, rs
  {
    if i == 128 || !rs[i].used then i else Unused(rs, i + 1)
  }

  function WithRegion(st: State, i: nat, r: Region): State
    requires i < 128
  {
    st.(regions := st.regions[i := r])
  }

  /** The increment in shm_get(). */
  function Referenced(st: State, i: nat): State
    requires i < 128
  {
    WithRegion(st, i, st.regions[i].(refs := st.regions[i].refs + 1))
  }

  /** nanvix_rmem_free() of the page of region `i`, which must succeed. */
  function PageFreed(st: State, i: nat): Outcome
    requires i < 128
  {
    var p := st.regions[i].page;
    if p !in st.live then Abort
    else Done(WithRegion(st, i, st.regions[i].(page := 0)).(live := st.live - {p}), 0, 0)
  }

  /** shm_put(). */
  function Put(st: State, i: nat): Outcome
    requires i < 128
  {
    var r := st.regions[i];
    if r.refs == 0 then Done(st, EINVAL, 0)
    else
      var st1 := WithRegion(st, i, r.(refs := r.refs - 1));
      if r.refs > 1 || r.linked then Done(st1, 0, 0)
      else
        var f := if r.page != 0 then PageFreed(st1, i) else Done(st1, 0, 0);
        if f.Abort? then Abort
        else Done(WithRegion(f.st, i, f.st.regions[i].(used := false)), 0, 0)
  }

  /** shm_set_size(): `supply` is what nanvix_rmem_alloc() would return. */
  function Resized(st: State, i: nat, size: nat, supply: u32): Outcome
    requires i < 128
  {
    var r := st.regions[i];
    if size > 0 && r.page == 0 then
      if supply == 0 then Abort
      else Done(WithRegion(st, i, r.(page := supply, size := size)).(live := st.live + {supply}), 0, 0)
    else if size == 0 && r.page != 0 then
      var f := PageFreed(st, i);
      if f.Abort? then Abort else Done(WithRegion(f.st, i, f.st.regions[i].(size := size)), 0, 0)
    else Done(WithRegion(st, i, r.(size := size)), 0, 0)
  }

  /** __do_shm_ftruncate(). */
  function Truncate(st: State, id: int, size: int, supply: u32): Outcome
  {
    if !(0 <= id < REGIONS) || !st.regions[id].used || size < 0 then Done(st, EINVAL, 0)
    else if size > SIZE_LIMIT then Done(st, EFBIG, 0)
    else if !st.regions[id].writable then Done(st, EACCES, 0)
    else
      var f := Resized(st, id, size, supply);
      if f.Abort? then Abort else f.(page := f.st.regions[id].page)
  }

  /** The truncation inside an open: on failure the reference is put back. */
  function OpenTruncated(st: State, i: nat, flags: Flags): Outcome
    requires i < 128
  {
    if !flags.trunc then Done(st, i, st.regions[i].page)
    else if !flags.write then Failed(Put(st, i), EACCES)
    else
      var f := Truncate(st, i, 0, 0);
      if f.Abort? then Abort
      else if f.ret < 0 then Failed(Put(f.st, i), EAGAIN)
      else Done(f.st, i, f.st.regions[i].page)
  }

  /** The outcome of a call that gives up with `code` after shm_put(). */
  function Failed(o: Outcome, code: int): Outcome { if o.Abort? then Abort else Done(o.st, code, 0) }

  /** __do_shm_open(). */
  function Open(st: State, name: CString, flags: Flags): Outcome
  {
    if !ValidName(name) then Done(st, EINVAL, 0)
    else if flags.creat || flags.excl || flags.other then Done(st, ENOTSUP, 0)
    else
      var i := Lookup(st.regions, name, 0);
      if i == 128 then Done(st, EINVAL, 0)
      else
        var st1 := Referenced(st, i);
        if !st.regions[i].linked then Failed(Put(st1, i), EAGAIN) else OpenTruncated(st1, i, flags)
  }

  /** The region that __do_shm_create() sets up in an unused slot. */
  function Fresh(r: Region, proc: int, name: CString, mode: Mode): Region
  {
    Region(true, true, mode.write, name, proc, 1, 0, r.page)
  }

  /** __do_shm_create(): an existing region is opened, even one that is about to be removed. */
  function Create(st: State, proc: int, name: CString, flags: Flags, mode: Mode): Outcome
  {
    if !ValidName(name) then Done(st, EINVAL, 0)
    else if flags.other || mode.other then Done(st, ENOTSUP, 0)
    else if !flags.creat then Done(st, EINVAL, 0)
    else
      var i := Lookup(st.regions, name, 0);
      if i < 128 then
        var st1 := Referenced(st, i);
        if flags.excl then Failed(Put(st1, i), EEXIST) else OpenTruncated(st1, i, flags)
      else
        var k := Unused(st.regions, 0);
        if k == 128 then Done(st, ENFILE, 0)
        else if st.regions[k].page != 0 then
          var f := PageFreed(st, k);
          if f.Abort? then Abort else Done(WithRegion(f.st, k, Fresh(f.st.regions[k], proc, name, mode)), k, 0)
        else Done(WithRegion(st, k, Fresh(st.regions[k], proc, name, mode)), k, 0)
  }

  /** __do_shm_close(). */
  function Close(st: State, id: int): Outcome
  {
    if !(0 <= id < REGIONS) || !st.regions[id].used then Done(st, EINVAL, 0) else Put(st, id)
  }

  /** __do_shm_unlink(): the name is not validated. */
  function Unlink(st: State, proc: int, name: CString): Outcome
  {
    var i := Lookup(st.regions, name, 0);
    if i == 128 then Done(st, EINVAL, 0)
    else
      var st1 := Referenced(st, i);
      if st.regions[i].owner != proc then Failed(Put(st1, i), EPERM)
      else Close(WithRegion(st1, i, st1.regions[i].(linked := false)), i)
  }

  // ----- the invariant

  predicate RegionOk(r: Region)
  {
    && (!r.used ==> r.refs == 0 && r.page == 0)
    && (r.used ==> (r.page != 0 <==> r.size > 0))
    && (r.used && !r.linked ==> r.refs >= 1)
  }

  /** No two used regions have the same name. */
  ghost predicate NamesUnique(rs: Regions)
  {
    forall i: nat, j: nat | i < 128 && j < 128 && rs[i].used && rs[j].used && rs[i].name == rs[j].name :: i == j
  }

  ghost predicate PagesUnique(rs: Regions)
  {
    forall i: nat, j: nat | i < 128 && j < 128 && rs[i].page == rs[j].page != 0 :: i == j
  }

  /** The pages held are exactly those of the regions. */
  ghost predicate PagesLive(st: State)
  {
    && (forall i: nat | i < 128 && st.regions[i].page != 0 :: st.regions[i].page in st.live)
    && (forall p: u32 | p in st.live :: p != 0 && exists i: nat :: i < 128 && st.regions[i].page == p)
  }

  ghost predicate Inv(st: State)
  {
    && (forall i: nat | i < 128 :: RegionOk(st.regions[i]))
    && NamesUnique(st.regions) && PagesUnique(st.regions) && PagesLive(st)
  }

  lemma InitInv(st: State)
    requires st.live == {} && forall i: nat | i < 128 :: !st.regions[i].used && st.regions[i].refs == 0 && st.regions[i].page == 0
    ensures Inv(st)
  {}

  /** Slot `i` becomes `r`, and its page is kept, dropped, or replaced by a new one. */
  ghost predicate SlotStep(st: State, i: nat, r: Region, st': State)
  {
    && i < 128 && RegionOk(r)
    && st'.regions == st.regions[i := r]
    && (r.used ==> forall j: nat | j < 128 && j != i && st.regions[j].used :: st.regions[j].name != r.name)
    && var p := st.regions[i].page;
       || (r.page == p && st'.live == st.live)
       || (p != 0 && r.page == 0 && st'.live == st.live - {p})
       || (p == 0 && r.page != 0 && r.page !in st.live && st'.live == st.live + {r.page})
  }

  lemma SlotStepInv(st: State, i: nat, r: Region, st': State)
    requires Inv(st) && SlotStep(st, i, r, st')
    ensures Inv(st')
  {
    var p := st.regions[i].page;
    forall q: u32 | q in st'.live ensures q != 0 && exists j: nat :: j < 128 && st'.regions[j].page == q {
      if q in st.live {
        var j: nat :| j < 128 && st.regions[j].page == q;
        assert st'.regions[if j == i then i else j].page == q;
      } else {
        assert st'.regions[i].page == q;
      }
    }
  }

  lemma OnlyName(st: State, i: nat, j: nat)
    requires Inv(st) && i < 128 && j < 128 && i != j && st.regions[i].used && st.regions[j].used
    ensures st.regions[i].name != st.regions[j].name
  {}

  /** The region after shm_put(). */
  function AfterPut(r: Region): Region
  {
    if r.refs == 0 then r
    else if r.refs > 1 || r.linked then r.(refs := r.refs - 1)
    else r.(refs := 0, page := 0, used := false)
  }

  /** shm_put() releases the region exactly when it is unlinked and this was the last reference,
      and then gives its page back. */
  lemma PutStep(st: State, i: nat)
    requires Inv(st) && i < 128 && st.regions[i].used
    ensures var o, r := Put(st, i), st.regions[i];
      && o.Done? && o.ret == (if r.refs == 0 then EINVAL else 0)
      && o.st.regions == st.regions[i := AfterPut(r)]
      && o.st.live == st.live - (if r.refs == 1 && !r.linked && r.page != 0 then {r.page} else {})
      && Inv(o.st)
  {
    var o, r := Put(st, i), st.regions[i];
    assert RegionOk(r);
    assert r.page != 0 ==> r.page in st.live;
    assert st.live - {} == st.live;
    assert SlotStep(st, i, AfterPut(r), o.st) by {
      forall j: nat | j < 128 && j != i && st.regions[j].used ensures st.regions[j].name != r.name { OnlyName(st, i, j); }
    }
    SlotStepInv(st, i, AfterPut(r), o.st);
  }

  /** A reference taken and put back leaves everything as it was. */
  lemma GetPut(st: State, i: nat)
    requires Inv(st) && i < 128 && st.regions[i].used
    ensures Put(Referenced(st, i), i) == Done(st, 0, 0)
  {
    var r := st.regions[i];
    assert RegionOk(r);
    assert r.(refs := r.refs + 1).(refs := r.refs) == r;
    assert st.regions[i := r.(refs := r.refs + 1)][i := r] == st.regions;
  }

  lemma ReferencedInv(st: State, i: nat)
    requires Inv(st) && i < 128 && st.regions[i].used
    ensures Inv(Referenced(st, i))
  {
    var r := st.regions[i].(refs := st.regions[i].refs + 1);
    assert RegionOk(st.regions[i]);
    assert SlotStep(st, i, r, Referenced(st, i)) by {
      forall j: nat | j < 128 && j != i && st.regions[j].used ensures st.regions[j].name != r.name { OnlyName(st, i, j); }
    }
    SlotStepInv(st, i, r, Referenced(st, i));
  }

  /** The region after shm_set_size(). */
  function AfterResize(r: Region, size: nat, supply: u32): Region
  {
    r.(size := size, page := if size == 0 then 0 else if r.page == 0 then supply else r.page)
  }

  /** shm_set_size() keeps a page exactly while the size is positive; each page is obtained once and
      given back once. It fails only when a page is needed and none is supplied. */
  lemma ResizedStep(st: State, i: nat, size: nat, supply: u32)
    requires Inv(st) && i < 128 && st.regions[i].used && supply !in st.live
    ensures var o, r := Resized(st, i, size, supply), st.regions[i];
      && (o.Abort? <==> size > 0 && r.page == 0 && supply == 0)
      && (o.Done? ==>
            && o.ret == 0 && o.st.regions == st.regions[i := AfterResize(r, size, supply)]
            && o.st.live == st.live - (if size == 0 && r.page != 0 then {r.page} else {})
                                    + (if size > 0 && r.page == 0 then {supply} else {})
            && Inv(o.st))
  {
    var o, r := Resized(st, i, size, supply), st.regions[i];
    assert RegionOk(r);
    assert r.page != 0 ==> r.page in st.live;
    assert st.live - {} + {} == st.live;
    if o.Done? {
      assert SlotStep(st, i, AfterResize(r, size, supply), o.st) by {
        forall j: nat | j < 128 && j != i && st.regions[j].used ensures st.regions[j].name != r.name { OnlyName(st, i, j); }
      }
      SlotStepInv(st, i, AfterResize(r, size, supply), o.st);
    }
  }

  // ----- the calls, slot by slot

  /** Why a truncation on opening fails, or 0. */
  function TruncError(writable: bool, flags: Flags): int
  {
    if !flags.trunc || (flags.write && writable) then 0 else if !flags.write then EACCES else EAGAIN
  }

  /** The region of a name, as opening looks at it. */
  datatype Found = Missing | Exists(linked: bool, writable: bool)

  /** Why an open fails, or 0. */
  function OpenError(name: CString, flags: Flags, x: Found): int
  {
    if !ValidName(name) then EINVAL
    else if flags.creat || flags.excl || flags.other then ENOTSUP
    else
      match x
      case Missing => EINVAL
      case Exists(linked, writable) => if !linked then EAGAIN else TruncError(writable, flags)
  }

  /** Why a create fails, or 0; `room` says that a slot is unused. */
  function CreateError(name: CString, flags: Flags, mode: Mode, x: Found, room: bool): int
  {
    if !ValidName(name) then EINVAL
    else if flags.other || mode.other then ENOTSUP
    else if !flags.creat then EINVAL
    else
      match x
      case Missing => if room then 0 else ENFILE
      case Exists(_, writable) => if flags.excl then EEXIST else TruncError(writable, flags)
  }

  function FoundAt(rs: Regions, name: CString): Found
  {
    var i := Lookup(rs, name, 0);
    if i < 128 then Exists(rs[i].linked, rs[i].writable) else Missing
  }

  /** An error if there is one, else the id. */
  function OrId(error: int, id: int): int { if error < 0 then error else id }

  /** The region after a successful open. */
  function AfterOpen(r: Region, flags: Flags): Region
  {
    var r1 := r.(refs := r.refs + 1);
    if flags.trunc then AfterResize(r1, 0, 0) else r1
  }

  function LiveAfterOpen(st: State, r: Region, flags: Flags): set<u32>
  {
    st.live - (if flags.trunc && r.page != 0 then {r.page} else {})
  }

  lemma OpenTruncatedStep(st: State, i: nat, flags: Flags)
    requires Inv(st) && i < 128 && st.regions[i].used
    ensures var o, r := OpenTruncated(Referenced(st, i), i, flags), st.regions[i];
      && o.Done? && Inv(o.st)
      && o.ret == OrId(TruncError(r.writable, flags), i)
      && (o.ret < 0 ==> o.st == st)
      && (o.ret >= 0 ==> o.st == State(st.regions[i := AfterOpen(r, flags)], LiveAfterOpen(st, r, flags)))
  {
    GetPut(st, i);
    ReferencedInv(st, i);
    var st1 := Referenced(st, i);
    if flags.trunc && flags.write { ResizedStep(st1, i, 0, 0); }
    assert st.live - {} == st.live;
  }

  /** __do_shm_open(): the error is exact; every failure leaves everything as it was. */
  lemma {:induction false} OpenStep(st: State, name: CString, flags: Flags)
    requires Inv(st)
    ensures var o, i := Open(st, name, flags), Lookup(st.regions, name, 0);
      && o.Done? && Inv(o.st) && (o.ret < 0 ==> o.st == st)
      && o.ret == OrId(OpenError(name, flags, FoundAt(st.regions, name)), i)
      && (o.ret >= 0 ==> i < 128 && o.st == State(st.regions[i := AfterOpen(st.regions[i], flags)], LiveAfterOpen(st, st.regions[i], flags)))
  {
    var i := Lookup(st.regions, name, 0);
    if i < 128 {
      GetPut(st, i);
      OpenTruncatedStep(st, i, flags);
    }
  }

  function NewRegion(proc: int, name: CString, mode: Mode): Region
  {
    Region(true, true, mode.write, name, proc, 1, 0, 0)
  }

  /** __do_shm_create() of a name that is in use opens that region, linked or not. */
  lemma {:induction false} CreateExisting(st: State, proc: int, name: CString, flags: Flags, mode: Mode)
    requires Inv(st) && Lookup(st.regions, name, 0) < 128
    ensures var o, i := Create(st, proc, name, flags, mode), Lookup(st.regions, name, 0);
      && o.Done? && Inv(o.st) && (o.ret < 0 ==> o.st == st)
      && o.ret == OrId(CreateError(name, flags, mode, FoundAt(st.regions, name), true), i)
      && (o.ret >= 0 ==> o.st == State(st.regions[i := AfterOpen(st.regions[i], flags)], LiveAfterOpen(st, st.regions[i], flags)))
  {
    var i := Lookup(st.regions, name, 0);
    GetPut(st, i);
    OpenTruncatedStep(st, i, flags);
  }

  /** __do_shm_create() of a new name takes an unused slot, and fails only without one. */
  lemma {:induction false} CreateNew(st: State, proc: int, name: CString, flags: Flags, mode: Mode)
    requires Inv(st) && Lookup(st.regions, name, 0) == 128
    ensures var o, k := Create(st, proc, name, flags, mode), Unused(st.regions, 0);
      && o.Done? && Inv(o.st) && (o.ret < 0 ==> o.st == st)
      && o.ret == OrId(CreateError(name, flags, mode, Missing, exists j: nat :: j < 128 && !st.regions[j].used), k)
      && (o.ret >= 0 ==> k < 128 && !st.regions[k].used
                         && o.st == st.(regions := st.regions[k := NewRegion(proc, name, mode)]))
  {
    var o, k := Create(st, proc, name, flags, mode), Unused(st.regions, 0);
    assert k < 128 ==> RegionOk(st.regions[k]);
    assert k == 128 ==> forall j: nat | j < 128 :: st.regions[j].used;
    if o.ret >= 0 && k < 128 {
      assert SlotStep(st, k, NewRegion(proc, name, mode), o.st);
      SlotStepInv(st, k, NewRegion(proc, name, mode), o.st);
    }
  }

  /** __do_shm_unlink() succeeds exactly for the owner of the named region. */
  lemma {:induction false} UnlinkStep(st: State, proc: int, name: CString)
    requires Inv(st)
    ensures var o, i := Unlink(st, proc, name), Lookup(st.regions, name, 0);
      && o.Done? && Inv(o.st) && (o.ret != 0 ==> o.st == st)
      && o.ret == (if i == 128 then EINVAL else if st.regions[i].owner != proc then EPERM else 0)
      && (o.ret == 0 ==>
            var r := st.regions[i];
            && o.st.regions == st.regions[i := if r.refs == 0 then r.(linked := false, page := 0, used := false) else r.(linked := false)]
            && o.st.live == st.live - (if r.refs == 0 && r.page != 0 then {r.page} else {}))
  {
    var i := Lookup(st.regions, name, 0);
    if i < 128 {
      GetPut(st, i);
      if st.regions[i].owner == proc {
        UnlinkOwned(st, i);
        UnlinkIs(st, proc, name, i);
      }
    }
  }

  lemma {:induction false} UnlinkIs(st: State, proc: int, name: CString, i: nat)
    requires i == Lookup(st.regions, name, 0) && i < 128 && st.regions[i].owner == proc
    ensures var r := st.regions[i];
      Unlink(st, proc, name) == Close(WithRegion(Referenced(st, i), i, r.(refs := r.refs + 1, linked := false)), i)
  {}

  lemma UnlinkOwned(st: State, i: nat)
    requires Inv(st) && i < 128 && st.regions[i].used
    ensures var r := st.regions[i];
      var st2 := WithRegion(Referenced(st, i), i, r.(refs := r.refs + 1, linked := false));
      var o := Close(st2, i);
      && o.Done? && o.ret == 0 && Inv(o.st)
      && o.st.regions == st.regions[i := if r.refs == 0 then r.(linked := false, page := 0, used := false) else r.(linked := false)]
      && o.st.live == st.live - (if r.refs == 0 && r.page != 0 then {r.page} else {})
  {
    var r := st.regions[i];
    var r2 := r.(refs := r.refs + 1, linked := false);
    var st2 := WithRegion(Referenced(st, i), i, r2);
    UnlinkedInv(st, i, r2, st2);
    PutStep(st2, i);
    assert AfterPut(r2) == if r.refs == 0 then r.(linked := false, page := 0, used := false) else r.(linked := false);
  }

  lemma UnlinkedInv(st: State, i: nat, r: Region, st': State)
    requires Inv(st) && i < 128 && st.regions[i].used
    requires r == st.regions[i].(refs := st.regions[i].refs + 1, linked := false) && st' == WithRegion(Referenced(st, i), i, r)
    ensures Inv(st') && RegionOk(st.regions[i])
  {
    assert RegionOk(st.regions[i]);
    assert SlotStep(st, i, r, st') by {
      forall j: nat | j < 128 && j != i && st.regions[j].used ensures st.regions[j].name != r.name { OnlyName(st, i, j); }
    }
    SlotStepInv(st, i, r, st');
  }

  // ----- the abstract server

  /** A region that exists, as its users know it. */
  datatype Item = Item(name: CString, owner: int, writable: bool, linked: bool, refs: nat, size: nat, page: u32)

  type Items = map<nat, Item>

  function ItemOf(r: Region): Item { Item(r.name, r.owner, r.writable, r.linked, r.refs, r.size, r.page) }

  ghost function Abs(st: State): Items
  {
    map i: nat | i < 128 && st.regions[i].used :: ItemOf(st.regions[i])
  }

  datatype Op =
    | OpOpen(name: CString, flags: Flags)
    | OpCreate(proc: int, name: CString, flags: Flags, mode: Mode)
    | OpClose(id: int)
    | OpUnlink(proc: int, name: CString)
    | OpTruncate(id: int, size: int, supply: u32)

  function Exec(st: State, op: Op): Outcome
  {
    match op
    case OpOpen(name, flags) => Open(st, name, flags)
    case OpCreate(proc, name, flags, mode) => Create(st, proc, name, flags, mode)
    case OpClose(id) => Close(st, id)
    case OpUnlink(proc, name) => Unlink(st, proc, name)
    case OpTruncate(id, size, supply) => Truncate(st, id, size, supply)
  }

  /** What remote memory guarantees: a supplied page is not one that is already held; and there is a
      page when one is needed. */
  ghost predicate Supplied(st: State, op: Op)
  {
    op.OpTruncate? ==>
      op.supply !in st.live && (0 <= op.id < 128 && st.regions[op.id].page == 0 && op.size > 0 ==> op.supply != 0)
  }

  ghost predicate Has(a: Items, id: int, name: CString) { 0 <= id && id in a && a[id].name == name }

  /** The id of the region with the given name, or -1. */
  ghost function IdOf(a: Items, name: CString): (id: int)
    ensures id == -1 || Has(a, id, name)
    ensures id == -1 ==> forall j: int :: !Has(a, j, name)
  {
    if j: int :| Has(a, j, name) then j else -1
  }

  function Opened(x: Item, trunc: bool): Item
  {
    var y := x.(refs := x.refs + 1);
    if trunc then y.(size := 0, page := 0) else y
  }

  /** A reference is dropped; an unlinked region goes away with its last reference. */
  ghost function Closed(a: Items, id: nat): Items
    requires id in a && a[id].refs > 0
  {
    if a[id].refs == 1 && !a[id].linked then a - {id} else a[id := a[id].(refs := a[id].refs - 1)]
  }

  /** A name is unlinked; the region lives on while it is referenced. */
  ghost function Unlinked(a: Items, id: nat): Items
    requires id in a
  {
    if a[id].refs == 0 then a - {id} else a[id := a[id].(linked := false)]
  }

  ghost function Effect(a: Items, op: Op, ret: int): Items
  {
    if ret < 0 then a
    else
      match op
      case OpOpen(_, flags) => if ret in a then a[ret := Opened(a[ret], flags.trunc)] else a
      case OpCreate(proc, name, flags, mode) =>
        if ret in a then a[ret := Opened(a[ret], flags.trunc)]
        else a[ret := Item(name, proc, mode.write, true, 1, 0, 0)]
      case OpClose(id) => if 0 <= id && id in a && a[id].refs > 0 then Closed(a, id) else a
      case OpUnlink(_, name) => if IdOf(a, name) >= 0 then Unlinked(a, IdOf(a, name)) else a
      case OpTruncate(id, size, supply) =>
        if 0 <= id && id in a && size >= 0 then
          a[id := a[id].(size := size, page := if size == 0 then 0 else if a[id].page == 0 then supply else a[id].page)]
        else a
  }

  ghost function FoundIn(a: Items, name: CString): Found
  {
    var id := IdOf(a, name);
    if id >= 0 then Exists(a[id].linked, a[id].writable) else Missing
  }

  ghost predicate HasRoom(a: Items) { exists j: nat :: j < 128 && j !in a }

  /** Which results are right: every error code, and the id of a success. */
  ghost predicate Correct(a: Items, op: Op, ret: int)
  {
    match op
    case OpOpen(name, flags) => ret == OrId(OpenError(name, flags, FoundIn(a, name)), IdOf(a, name))
    case OpCreate(proc, name, flags, mode) =>
      var e := CreateError(name, flags, mode, FoundIn(a, name), HasRoom(a));
      if e < 0 then ret == e
      else if IdOf(a, name) >= 0 then ret == IdOf(a, name)
      else 0 <= ret < 128 && ret !in a
    case OpClose(id) => ret == if 0 <= id && id in a && a[id].refs > 0 then 0 else EINVAL
    case OpUnlink(proc, name) =>
      ret == if IdOf(a, name) < 0 then EINVAL else if a[IdOf(a, name)].owner != proc then EPERM else 0
    case OpTruncate(id, size, _) =>
      ret ==
        if !(0 <= id && id in a) || size < 0 then EINVAL
        else if size > SIZE_LIMIT then EFBIG
        else if !a[id].writable then EACCES
        else 0
  }

  lemma {:induction false} LookupIsId(st: State, name: CString)
    requires Inv(st)
    ensures var i := Lookup(st.regions, name, 0); IdOf(Abs(st), name) == if i < 128 then i else -1
    ensures FoundIn(Abs(st), name) == FoundAt(st.regions, name)
  {
    var a, i := Abs(st), Lookup(st.regions, name, 0);
    var id := IdOf(a, name);
    if i < 128 {
      assert Has(a, i, name);
    }
  }

  lemma AbsUpdate(st: State, i: nat, r: Region, live: set<u32>)
    requires i < 128
    ensures Abs(State(st.regions[i := r], live)) == if r.used then Abs(st)[i := ItemOf(r)] else Abs(st) - {i}
  {}

  lemma OpenRefines(st: State, name: CString, flags: Flags)
    requires Inv(st)
    ensures var o := Open(st, name, flags);
      o.Done? && Inv(o.st) && Correct(Abs(st), OpOpen(name, flags), o.ret)
      && Abs(o.st) == Effect(Abs(st), OpOpen(name, flags), o.ret)
  {
    OpenStep(st, name, flags);
    OpenedRefines(st, name, flags, Open(st, name, flags));
  }

  lemma {:induction false} OpenedRefines(st: State, name: CString, flags: Flags, o: Outcome)
    requires Inv(st) && o.Done? && (o.ret < 0 ==> o.st == st)
    requires var i := Lookup(st.regions, name, 0);
      && o.ret == OrId(OpenError(name, flags, FoundAt(st.regions, name)), i)
      && (o.ret >= 0 ==> i < 128 && o.st == State(st.regions[i := AfterOpen(st.regions[i], flags)], LiveAfterOpen(st, st.regions[i], flags)))
    ensures Correct(Abs(st), OpOpen(name, flags), o.ret) && Abs(o.st) == Effect(Abs(st), OpOpen(name, flags), o.ret)
  {
    var i := Lookup(st.regions, name, 0);
    LookupIsId(st, name);
    if o.ret >= 0 { AbsUpdate(st, i, AfterOpen(st.regions[i], flags), o.st.live); }
  }

  lemma CreateRefines(st: State, proc: int, name: CString, flags: Flags, mode: Mode)
    requires Inv(st)
    ensures var o := Create(st, proc, name, flags, mode);
      o.Done? && Inv(o.st) && Correct(Abs(st), OpCreate(proc, name, flags, mode), o.ret)
      && Abs(o.st) == Effect(Abs(st), OpCreate(proc, name, flags, mode), o.ret)
  {
    var o, i := Create(st, proc, name, flags, mode), Lookup(st.regions, name, 0);
    if i < 128 {
      CreateExisting(st, proc, name, flags, mode);
      ReopenRefines(st, proc, name, flags, mode, o);
    } else {
      CreateNew(st, proc, name, flags, mode);
      FreshRefines(st, proc, name, flags, mode, o);
    }
  }

  lemma {:induction false} ReopenRefines(st: State, proc: int, name: CString, flags: Flags, mode: Mode, o: Outcome)
    requires Inv(st) && Lookup(st.regions, name, 0) < 128 && o.Done? && (o.ret < 0 ==> o.st == st)
    requires var i := Lookup(st.regions, name, 0);
      && o.ret == OrId(CreateError(name, flags, mode, FoundAt(st.regions, name), true), i)
      && (o.ret >= 0 ==> o.st == State(st.regions[i := AfterOpen(st.regions[i], flags)], LiveAfterOpen(st, st.regions[i], flags)))
    ensures Correct(Abs(st), OpCreate(proc, name, flags, mode), o.ret)
    ensures Abs(o.st) == Effect(Abs(st), OpCreate(proc, name, flags, mode), o.ret)
  {
    var i := Lookup(st.regions, name, 0);
    LookupIsId(st, name);
    if o.ret >= 0 { AbsUpdate(st, i, AfterOpen(st.regions[i], flags), o.st.live); }
  }

  lemma {:induction false} FreshRefines(st: State, proc: int, name: CString, flags: Flags, mode: Mode, o: Outcome)
    requires Inv(st) && Lookup(st.regions, name, 0) == 128 && o.Done? && (o.ret < 0 ==> o.st == st)
    requires var e := CreateError(name, flags, mode, Missing, exists j: nat :: j < 128 && !st.regions[j].used);
      if e < 0 then o.ret == e else o.ret >= 0
    requires o.ret >= 0 ==> o.ret < 128 && !st.regions[o.ret].used
                            && o.st == st.(regions := st.regions[o.ret := NewRegion(proc, name, mode)])
    ensures Correct(Abs(st), OpCreate(proc, name, flags, mode), o.ret)
    ensures Abs(o.st) == Effect(Abs(st), OpCreate(proc, name, flags, mode), o.ret)
  {
    LookupIsId(st, name);
    assert forall j: nat | j < 128 :: j in Abs(st) <==> st.regions[j].used;
    assert HasRoom(Abs(st)) <==> exists j: nat :: j < 128 && !st.regions[j].used;
    if o.ret >= 0 { AbsUpdate(st, o.ret, NewRegion(proc, name, mode), o.st.live); }
  }

  lemma CloseRefines(st: State, id: int)
    requires Inv(st)
    ensures var o := Close(st, id);
      o.Done? && Inv(o.st) && Correct(Abs(st), OpClose(id), o.ret) && Abs(o.st) == Effect(Abs(st), OpClose(id), o.ret)
  {
    if 0 <= id < 128 && st.regions[id].used {
      PutStep(st, id);
      var o := Close(st, id);
      AbsUpdate(st, id, AfterPut(st.regions[id]), o.st.live);
    }
  }

  lemma UnlinkRefines(st: State, proc: int, name: CString)
    requires Inv(st)
    ensures var o := Unlink(st, proc, name);
      o.Done? && Inv(o.st) && Correct(Abs(st), OpUnlink(proc, name), o.ret)
      && Abs(o.st) == Effect(Abs(st), OpUnlink(proc, name), o.ret)
  {
    var o, i := Unlink(st, proc, name), Lookup(st.regions, name, 0);
    UnlinkStep(st, proc, name);
    LookupIsId(st, name);
    if o.ret == 0 { AbsUpdate(st, i, o.st.regions[i], o.st.live); }
  }

  lemma TruncateRefines(st: State, id: int, size: int, supply: u32)
    requires Inv(st) && Supplied(st, OpTruncate(id, size, supply))
    ensures var o := Truncate(st, id, size, supply);
      o.Done? && Inv(o.st) && Correct(Abs(st), OpTruncate(id, size, supply), o.ret)
      && Abs(o.st) == Effect(Abs(st), OpTruncate(id, size, supply), o.ret)
  {
    var o := Truncate(st, id, size, supply);
    if 0 <= id < 128 && st.regions[id].used && 0 <= size <= SIZE_LIMIT && st.regions[id].writable {
      ResizedStep(st, id, size, supply);
      AbsUpdate(st, id, AfterResize(st.regions[id], size, supply), o.st.live);
    }
  }

  /** No call ever trips an assertion, every return code is the right one, every failing call
      changes nothing, and every successful one changes exactly what it should. */
  lemma ExecStep(st: State, op: Op)
    requires Inv(st) && Supplied(st, op)
    ensures var o := Exec(st, op);
      o.Done? && Inv(o.st) && Correct(Abs(st), op, o.ret) && Abs(o.st) == Effect(Abs(st), op, o.ret)
  {
    match op
    case OpOpen(name, flags) => OpenRefines(st, name, flags);
    case OpCreate(proc, name, flags, mode) => CreateRefines(st, proc, name, flags, mode);
    case OpClose(id) => CloseRefines(st, id);
    case OpUnlink(proc, name) => UnlinkRefines(st, proc, name);
    case OpTruncate(id, size, supply) => TruncateRefines(st, id, size, supply);
  }

  // ----- runs

  datatype Trace = Trace(st: State, rets: seq<int>)

  ghost predicate SuppliedRun(st: State, ops: seq<Op>)
    decreases |ops|
  {
    ops != [] ==>
      Supplied(st, ops[0]) && var o := Exec(st, ops[0]); o.Done? ==> SuppliedRun(o.st, ops[1..])
  }

  /** A run ends early at a failed assertion. */
  function Run(st: State, ops: seq<Op>): Trace
    decreases |ops|
  {
    if ops == [] then Trace(st, [])
    else
      var o := Exec(st, ops[0]);
      if o.Abort? then Trace(st, [])
      else
        var t := Run(o.st, ops[1..]);
        Trace(t.st, [o.ret] + t.rets)
  }

  ghost function Replay(a: Items, ops: seq<Op>, rets: seq<int>): Items
    requires |rets| == |ops|
    decreases |ops|
  {
    if ops == [] then a else Replay(Effect(a, ops[0], rets[0]), ops[1..], rets[1..])
  }

  ghost predicate AllCorrect(a: Items, ops: seq<Op>, rets: seq<int>)
    requires |rets| == |ops|
    decreases |ops|
  {
    ops != [] ==> Correct(a, ops[0], rets[0]) && AllCorrect(Effect(a, ops[0], rets[0]), ops[1..], rets[1..])
  }

  /** In every run the table of regions is the abstract server, and no assertion fails. */
  lemma {:induction false} RunRefinesItems(st: State, ops: seq<Op>)
    requires Inv(st) && SuppliedRun(st, ops)
    ensures var t := Run(st, ops);
      && |t.rets| == |ops| && Inv(t.st)
      && AllCorrect(Abs(st), ops, t.rets)
      && Abs(t.st) == Replay(Abs(st), ops, t.rets)
    decreases |ops|
  {
    if ops != [] {
      var o := Exec(st, ops[0]);
      ExecStep(st, ops[0]);
      RunRefinesItems(o.st, ops[1..]);
      assert Run(st, ops).rets[1..] == Run(o.st, ops[1..]).rets;
    }
  }

  // ----- the ledger of references

  /** What one call adds to the references of region `id`: a successful open or create that returned
      it adds one, a successful close takes one away, and nothing else counts. */
  function Entry(op: Op, ret: int, id: nat): int
  {
    match op
    case OpOpen(_, _) => if ret == id then 1 else 0
    case OpCreate(_, _, _, _) => if ret == id then 1 else 0
    case OpClose(i) => if i == id && ret == 0 then -1 else 0
    case _ => 0
  }

  function Ledger(ops: seq<Op>, rets: seq<int>, id: nat): int
    requires |rets| == |ops|
    decreases |ops|
  {
    if ops == [] then 0 else Entry(ops[0], rets[0], id) + Ledger(ops[1..], rets[1..], id)
  }

  /** What a call does to the references of one slot, and when it frees the slot. */
  ghost predicate SlotEffect(st: State, op: Op, o: Outcome, id: nat)
    requires id < 128
  {
    && o.Done?
    && o.st.regions[id].refs == st.regions[id].refs + Entry(op, o.ret, id)
    && (st.regions[id].used ==>
          (!o.st.regions[id].used <==> o.st.regions[id].refs == 0 && !o.st.regions[id].linked))
  }

  lemma OpenSlot(st: State, name: CString, flags: Flags, id: nat)
    requires Inv(st) && id < 128
    ensures SlotEffect(st, OpOpen(name, flags), Open(st, name, flags), id)
  {
    assert RegionOk(st.regions[id]);
    OpenStep(st, name, flags);
  }

  lemma CreateSlot(st: State, proc: int, name: CString, flags: Flags, mode: Mode, id: nat)
    requires Inv(st) && id < 128
    ensures SlotEffect(st, OpCreate(proc, name, flags, mode), Create(st, proc, name, flags, mode), id)
  {
    var o := Create(st, proc, name, flags, mode);
    if Lookup(st.regions, name, 0) < 128 {
      CreateExisting(st, proc, name, flags, mode);
      ReopenSlot(st, OpCreate(proc, name, flags, mode), flags, Lookup(st.regions, name, 0), o, id);
    } else {
      CreateNew(st, proc, name, flags, mode);
      FreshSlot(st, proc, name, flags, mode, Unused(st.regions, 0), o, id);
    }
  }

  lemma ReopenSlot(st: State, op: Op, flags: Flags, i: nat, o: Outcome, id: nat)
    requires Inv(st) && id < 128 && i < 128 && st.regions[i].used && (op.OpOpen? || op.OpCreate?) && o.Done?
    requires o.ret < 0 ==> o.st == st
    requires o.ret >= 0 ==> o.ret == i && o.st.regions == st.regions[i := AfterOpen(st.regions[i], flags)]
    ensures SlotEffect(st, op, o, id)
  {
    assert RegionOk(st.regions[id]);
  }

  lemma FreshSlot(st: State, proc: int, name: CString, flags: Flags, mode: Mode, k: nat, o: Outcome, id: nat)
    requires Inv(st) && id < 128 && o.Done? && (o.ret < 0 ==> o.st == st)
    requires o.ret >= 0 ==>
      o.ret == k < 128 && !st.regions[k].used && o.st.regions == st.regions[k := NewRegion(proc, name, mode)]
    ensures SlotEffect(st, OpCreate(proc, name, flags, mode), o, id)
  {
    assert RegionOk(st.regions[id]);
  }

  lemma CloseSlot(st: State, i: int, id: nat)
    requires Inv(st) && id < 128
    ensures SlotEffect(st, OpClose(i), Close(st, i), id)
  {
    assert RegionOk(st.regions[id]);
    if 0 <= i < 128 && st.regions[i].used { PutStep(st, i); }
  }

  lemma UnlinkSlot(st: State, proc: int, name: CString, id: nat)
    requires Inv(st) && id < 128
    ensures SlotEffect(st, OpUnlink(proc, name), Unlink(st, proc, name), id)
  {
    assert RegionOk(st.regions[id]);
    UnlinkStep(st, proc, name);
  }

  lemma TruncateSlot(st: State, i: int, size: int, supply: u32, id: nat)
    requires Inv(st) && id < 128 && Supplied(st, OpTruncate(i, size, supply))
    ensures SlotEffect(st, OpTruncate(i, size, supply), Truncate(st, i, size, supply), id)
  {
    assert RegionOk(st.regions[id]);
    if 0 <= i < 128 && st.regions[i].used && 0 <= size <= SIZE_LIMIT { ResizedStep(st, i, size, supply); }
  }

  lemma EverySlot(st: State, op: Op, id: nat)
    requires Inv(st) && Supplied(st, op) && id < 128
    ensures SlotEffect(st, op, Exec(st, op), id)
  {
    match op
    case OpOpen(name, flags) => OpenSlot(st, name, flags, id);
    case OpCreate(proc, name, flags, mode) => CreateSlot(st, proc, name, flags, mode, id);
    case OpClose(i) => CloseSlot(st, i, id);
    case OpUnlink(proc, name) => UnlinkSlot(st, proc, name, id);
    case OpTruncate(i, size, supply) => TruncateSlot(st, i, size, supply, id);
  }

  /** A reference count is always the number of successful opens and creates minus closes. */
  lemma {:induction false} RefsAreLedger(st: State, ops: seq<Op>, id: nat)
    requires Inv(st) && SuppliedRun(st, ops) && id < 128
    ensures var t := Run(st, ops);
      |t.rets| == |ops| && t.st.regions[id].refs == st.regions[id].refs + Ledger(ops, t.rets, id)
    decreases |ops|
  {
    if ops != [] {
      var o := Exec(st, ops[0]);
      ExecStep(st, ops[0]);
      EverySlot(st, ops[0], id);
      RefsAreLedger(o.st, ops[1..], id);
      assert Run(st, ops).rets[1..] == Run(o.st, ops[1..]).rets;
    }
  }

  /** A region goes away in a call exactly when, after it, it is unlinked and unreferenced. */
  lemma ReleasedIff(st: State, op: Op, id: nat)
    requires Inv(st) && Supplied(st, op) && id < 128 && st.regions[id].used
    ensures var o := Exec(st, op);
      && o.Done?
      && (!o.st.regions[id].used <==> o.st.regions[id].refs == 0 && !o.st.regions[id].linked)
  {
    EverySlot(st, op, id);
  }
}
