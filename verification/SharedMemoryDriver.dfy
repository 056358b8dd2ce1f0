/**
  The shared memory server as it runs: the table `regions[]` updated in place. Every method is proved
  against the function of SharedMemory it implements; `ok` is false when an assertion of the server
  fails, after which nothing is claimed about the state.
 */
module SharedMemoryDriver {
  import opened Disk
  import opened SharedMemory

  class Server {
    const regions: array<Region>
    /** The pages that remote memory holds for this server. */
    var live: set<u32>

    ghost predicate Valid()
      reads this
    {
      regions.Length == 128
    }

    ghost function View(): State
      requires Valid()
      reads this, regions
    {
      State(regions[..], live)
    }

    /** shm_init(). */
    constructor ()
      ensures Valid() && Inv(View())
      ensures forall i | 0 <= i < 128 :: !regions[i].used && regions[i].refs == 0 && regions[i].page == 0
    {
      regions := new Region[128](_ => Region(false, false, false, [], 0, 0, 0, 0));
      live := {};
      new;
      InitInv(View());
    }

    /** The search of shm_get(), without the increment: 128 if there is no such region. */
    method Find(name: CString) returns (i: nat)
      requires Valid()
      ensures i == Lookup(regions[..], name, 0)
    {
      i := 0;
      while i < 128
        invariant i <= 128 && Lookup(regions[..], name, 0) == Lookup(regions[..], name, i)
      {
        if regions[i].used && regions[i].name == name { return; }
        i := i + 1;
      }
    }

    /** shm_get(). */
    method Get(name: CString) returns (i: nat)
      requires Valid()
      modifies regions
      ensures Valid() && i == Lookup(old(regions[..]), name, 0)
      ensures View() == if i < 128 then Referenced(old(View()), i) else old(View())
    {
      i := Find(name);
      if i < 128 { regions[i] := regions[i].(refs := regions[i].refs + 1); }
    }

    /** nanvix_rmem_free() under an assertion. */
    method FreePage(i: nat) returns (ok: bool)
      requires Valid() && i < 128
      modifies this, regions
      ensures Valid() && (ok <==> PageFreed(old(View()), i).Done?)
      ensures ok ==> Done(View(), 0, 0) == PageFreed(old(View()), i)
    {
      var p := regions[i].page;
      if p !in live { return false; }
      live := live - {p};
      regions[i] := regions[i].(page := 0);
      return true;
    }

    /** shm_put(). */
    method Drop(i: nat) returns (ok: bool, ret: int)
      requires Valid() && i < 128
      modifies this, regions
      ensures Valid() && (ok <==> Put(old(View()), i).Done?)
      ensures ok ==> Done(View(), ret, 0) == Put(old(View()), i)
    {
      if regions[i].refs == 0 { return true, EINVAL; }
      regions[i] := regions[i].(refs := regions[i].refs - 1);
      if regions[i].refs == 0 && !regions[i].linked {
        if regions[i].page != 0 {
          ok := FreePage(i);
          if !ok { return false, 0; }
        }
        regions[i] := regions[i].(used := false);
      }
      return true, 0;
    }

    /** shm_set_size(). */
    method SetSize(i: nat, size: nat, supply: u32) returns (ok: bool)
      requires Valid() && i < 128
      modifies this, regions
      ensures Valid() && (ok <==> Resized(old(View()), i, size, supply).Done?)
      ensures ok ==> Done(View(), 0, 0) == Resized(old(View()), i, size, supply)
    {
      if size > 0 && regions[i].page == 0 {
        if supply == 0 { return false; }
        live := live + {supply};
        regions[i] := regions[i].(page := supply);
      } else if size == 0 && regions[i].page != 0 {
        ok := FreePage(i);
        if !ok { return false; }
      }
      regions[i] := regions[i].(size := size);
      return true;
    }

    /** __do_shm_ftruncate(). */
    method Ftruncate(id: int, size: int, supply: u32) returns (ok: bool, ret: int, page: u32)
      requires Valid()
      modifies this, regions
      ensures Valid() && (ok <==> Truncate(old(View()), id, size, supply).Done?)
      ensures ok ==> Done(View(), ret, page) == Truncate(old(View()), id, size, supply)
    {
      if id < 0 || id >= REGIONS { return true, EINVAL, 0; }
      if !regions[id].used || size < 0 { return true, EINVAL, 0; }
      if size > SIZE_LIMIT { return true, EFBIG, 0; }
      if !regions[id].writable { return true, EACCES, 0; }
      ok := SetSize(id, size, supply);
      if !ok { return false, 0, 0; }
      return true, 0, regions[id].page;
    }

    /** The common end of an open and a create of an existing region. */
    method TruncateOnOpen(i: nat, flags: Flags) returns (ok: bool, ret: int, page: u32)
      requires Valid() && i < 128
      modifies this, regions
      ensures Valid() && (ok <==> OpenTruncated(old(View()), i, flags).Done?)
      ensures ok ==> Done(View(), ret, page) == OpenTruncated(old(View()), i, flags)
    {
      if flags.trunc {
        if !flags.write {
          ok, ret := Drop(i);
          return ok, EACCES, 0;
        }
        ok, ret, page := Ftruncate(i, 0, 0);
        if !ok { return; }
        if ret < 0 {
          ok, ret := Drop(i);
          return ok, EAGAIN, 0;
        }
      }
      return true, i, regions[i].page;
    }

    /** __do_shm_open(). */
    method OpenRegion(name: CString, flags: Flags) returns (ok: bool, ret: int, page: u32)
      requires Valid()
      modifies this, regions
      ensures Valid() && (ok <==> Open(old(View()), name, flags).Done?)
      ensures ok ==> Done(View(), ret, page) == Open(old(View()), name, flags)
    {
      if !ValidName(name) { return true, EINVAL, 0; }
      if flags.creat || flags.excl || flags.other { return true, ENOTSUP, 0; }
      var i := Get(name);
      if i == 128 { return true, EINVAL, 0; }
      if !regions[i].linked {
        ok, ret := Drop(i);
        return ok, EAGAIN, 0;
      }
      ok, ret, page := TruncateOnOpen(i, flags);
    }

    /** resource_alloc(): the first unused slot, or 128. */
    method FindUnused() returns (k: nat)
      requires Valid()
      ensures k == Unused(regions[..], 0)
    {
      k := 0;
      while k < 128
        invariant k <= 128 && Unused(regions[..], 0) == Unused(regions[..], k)
      {
        if !regions[k].used { return; }
        k := k + 1;
      }
    }

    /** __do_shm_create(). */
    method CreateRegion(proc: int, name: CString, flags: Flags, mode: Mode) returns (ok: bool, ret: int, page: u32)
      requires Valid()
      modifies this, regions
      ensures Valid() && (ok <==> Create(old(View()), proc, name, flags, mode).Done?)
      ensures ok ==> Done(View(), ret, page) == Create(old(View()), proc, name, flags, mode)
    {
      if !ValidName(name) { return true, EINVAL, 0; }
      if flags.other || mode.other { return true, ENOTSUP, 0; }
      if !flags.creat { return true, EINVAL, 0; }
      var i := Get(name);
      if i < 128 {
        if flags.excl {
          ok, ret := Drop(i);
          return ok, EEXIST, 0;
        }
        ok, ret, page := TruncateOnOpen(i, flags);
        return;
      }
      var k := FindUnused();
      if k == 128 { return true, ENFILE, 0; }
      if regions[k].page != 0 {
        ok := FreePage(k);
        if !ok { return false, 0, 0; }
      }
      regions[k] := regions[k].(used := true, refs := 1, linked := true, writable := false, size := 0);
      regions[k] := regions[k].(writable := mode.write, owner := proc, name := name);
      return true, k, regions[k].page;
    }

    /** __do_shm_close(). */
    method CloseRegion(id: int) returns (ok: bool, ret: int)
      requires Valid()
      modifies this, regions
      ensures Valid() && (ok <==> Close(old(View()), id).Done?)
      ensures ok ==> Done(View(), ret, 0) == Close(old(View()), id)
    {
      if id < 0 || id >= REGIONS { return true, EINVAL; }
      if !regions[id].used { return true, EINVAL; }
      ok, ret := Drop(id);
    }

    /** __do_shm_unlink(). */
    method UnlinkRegion(proc: int, name: CString) returns (ok: bool, ret: int)
      requires Valid()
      modifies this, regions
      ensures Valid() && (ok <==> Unlink(old(View()), proc, name).Done?)
      ensures ok ==> Done(View(), ret, 0) == Unlink(old(View()), proc, name)
    {
      var i := Get(name);
      if i == 128 { return true, EINVAL; }
      if regions[i].owner != proc {
        ok, ret := Drop(i);
        return ok, EPERM;
      }
      regions[i] := regions[i].(linked := false);
      ok, ret := CloseRegion(i);
    }
  }
}
