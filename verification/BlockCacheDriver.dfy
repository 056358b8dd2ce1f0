/**
  The block cache as the server runs it: a pool of buffers updated in place. Every method is
  proved against the functions of BlockCache.
 */
module BlockCacheDriver {
  import opened Disk
  import opened BlockCache

  /** The pool `buffers[]` and the static cursor of evict(). A pointer to a buffer is its index;
      all other pointers, null included, are the numbers outside the pool. */
  class Pool {
    const disk: RamDisk
    const bufs: array<Buffer>
    var k: Index

    ghost predicate Valid()
      reads this
    {
      bufs.Length == 32 && bufs as object != disk.data
    }

    ghost function View(): Cache
      requires Valid()
      reads this, bufs, disk.data
    {
      Cache(disk.Contents(), bufs[..], k)
    }

    /** binit(). */
    constructor (d: RamDisk)
      ensures Valid() && fresh(bufs) && disk == d && k == 0
      ensures forall i | 0 <= i < 32 ::
        !bufs[i].valid && !bufs[i].dirty && !bufs[i].used && bufs[i].count == 0
    {
      disk := d;
      bufs := new Buffer[32](_ => Buffer(false, false, false, 0, 0, seq(1024, _ => 0), 0));
      k := 0;
    }

    /** The loop of evict(). */
    method Search() returns (buf: int)
      requires Valid() && !Hangs(bufs[..], k)
      ensures buf == Picked(bufs[..], k) && -1 <= buf < 32
    {
      buf := -1;
      var i: Index := k;
      ghost var n := 0;
      ghost var pool: Buffers := bufs[..];
      SearchEndsIff(pool, k);
      PickedWell(pool, k);
      while i != StopAt(k)
        invariant n <= 32 && Searching(pool, k, n) == Running(i, buf)
        decreases 32 - n
      {
        if n == 32 { assert false; }
        n := n + 1;
        if bufs[i].used {
          i := Next(i);
          continue;
        }
        if bufs[i].dirty {
          buf := i;
          i := Next(i);
          continue;
        }
        buf := i;
        DoneStays(pool, k, n, 32);
        return;
      }
      if n == 32 { assert false; }
      DoneStays(pool, k, n + 1, 32);
    }

    /** evict(). */
    method Evict() returns (buf: int)
      requires Valid() && !Hangs(bufs[..], k)
      modifies this, bufs, disk.data
      ensures Valid() && View() == Evicted(old(View())) && buf == old(Picked(bufs[..], k)) && -1 <= buf < 32
    {
      buf := Search();
      k := Next(k);
      if buf < 0 { return; }
      if bufs[buf].dirty {
        WriteBack(buf);
        bufs[buf] := bufs[buf].(dirty := false);
      }
      bufs[buf] := bufs[buf].(valid := false);
    }

    /** bdev_writeblk(). */
    method WriteBack(i: Index)
      requires Valid()
      modifies disk.data
      ensures Valid() && View() == old(View()).(disk := WrittenBack(old(disk.Contents()), bufs[i]))
    {
      var _ := disk.Write(bufs[i].dev, bufs[i].data, Offset(bufs[i].num));
    }

    /** The search loop of getblk(): 32 if no valid buffer holds the block. */
    method Find(dev: nat, num: u32) returns (i: nat)
      requires Valid()
      ensures i == Lookup(bufs[..], dev, num, 0)
    {
      i := 0;
      while i < 32
        invariant i <= 32 && Lookup(bufs[..], dev, num, 0) == Lookup(bufs[..], dev, num, i)
      {
        if bufs[i].valid && bufs[i].dev == dev && bufs[i].num == num { return; }
        i := i + 1;
      }
    }

    /** getblk(). */
    method GetBlock(dev: nat, num: u32) returns (buf: int)
      requires Valid() && (Lookup(bufs[..], dev, num, 0) < 32 || !Hangs(bufs[..], k))
      modifies this, bufs, disk.data
      ensures Valid() && Got(View(), buf) == Gotten(old(View()), dev, num) && -1 <= buf < 32
    {
      buf := Find(dev, num);
      if buf == 32 {
        buf := Evict();
        if buf < 0 { return; }
        bufs[buf] := bufs[buf].(dev := dev, num := num);
      }
      bufs[buf] := bufs[buf].(count := bufs[buf].count + 1);
      bufs[buf] := bufs[buf].(used := true);
    }

    /** brelse(). */
    method Release(buf: int) returns (ret: int)
      requires Valid()
      modifies bufs
      ensures Valid()
      ensures ret == if 0 <= buf < 32 && old(bufs[..])[buf].count > 0 then 0 else EINVAL
      ensures View() == if 0 <= buf < 32 then Released(old(View()), buf) else old(View())
    {
      if buf < 0 || buf >= 32 { return EINVAL; }
      if bufs[buf].count == 0 { return EINVAL; }
      var last := bufs[buf].count == 1;
      bufs[buf] := bufs[buf].(count := bufs[buf].count - 1);
      if last { bufs[buf] := bufs[buf].(used := false); }
      return 0;
    }

    /** bread(). */
    method ReadBlock(dev: nat, num: u32) returns (buf: int)
      requires Valid() && (Lookup(bufs[..], dev, num, 0) < 32 || !Hangs(bufs[..], k))
      modifies this, bufs, disk.data
      ensures Valid() && Got(View(), buf) == ReadIn(old(View()), dev, num)
    {
      buf := GetBlock(dev, num);
      if buf < 0 { return; }
      if !bufs[buf].valid {
        buf := FillIn(buf);
      }
    }

    /** The device read of bread(). */
    method FillIn(i: Index) returns (buf: int)
      requires Valid()
      modifies bufs
      ensures Valid()
      ensures var st := old(View()); var b := st.bufs[i];
        if Reachable(st.disk, b.dev, b.num) then
          && buf == i
          && View() == st.(bufs := st.bufs[i := b.(valid := true, data := st.disk[Offset(b.num)..Offset(b.num) + 1024])])
        else buf == -1 && View() == Released(st, i)
    {
      var n, data := disk.Read(bufs[i].dev, 1024, Offset(bufs[i].num));
      if n < 0 {
        var _ := Release(i);
        return -1;
      }
      bufs[i] := bufs[i].(data := data);
      bufs[i] := bufs[i].(valid := true);
      return i;
    }

    /** bwrite2(). */
    method Flush(buf: int) returns (ret: int)
      requires Valid()
      modifies bufs, disk.data
      ensures Valid()
      ensures ret == if 0 <= buf < 32 && old(bufs[..])[buf].count > 0 then 0 else EINVAL
      ensures View() == if 0 <= buf < 32 then Flushed(old(View()), buf) else old(View())
    {
      if buf < 0 || buf >= 32 { return EINVAL; }
      if bufs[buf].count == 0 { return EINVAL; }
      if bufs[buf].valid {
        if bufs[buf].dirty {
          WriteBack(buf);
          bufs[buf] := bufs[buf].(dirty := false);
        }
      }
      return 0;
    }

    /** bwrite(). */
    method WriteBlock(buf: int) returns (ret: int)
      requires Valid()
      modifies bufs, disk.data
      ensures Valid()
      ensures ret == if 0 <= buf < 32 && old(bufs[..])[buf].count > 0 then 0 else EINVAL
      ensures View() == if ret == 0 then Released(Flushed(old(View()), buf), buf) else old(View())
    {
      ret := Flush(buf);
      if ret < 0 { return; }
      ret := Release(buf);
    }
  }
}
