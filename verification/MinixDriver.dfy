/**
  The MINIX code itself: loops over bitmap words, in-place updates of the zone map, of the
  in-memory inode and of the device. Each method is proved against the functions of
  MinixBlocks and MinixDir.
 */
module MinixDriver {
  import opened Disk
  import opened MinixFormat
  import opened Bitmaps
  import opened SlotTable
  import opened MinixBlocks
  import opened MinixDir

  /** struct d_inode in memory. */
  class Inode {
    var mode: u16
    var uid: u16
    var size: u32
    var time: u32
    var gid: byte
    var nlinks: byte
    var zones: Zones

    constructor (d: DInode)
      ensures Value() == d
    {
      mode, uid, size, time, gid, nlinks, zones := d.mode, d.uid, d.size, d.time, d.gid, d.nlinks, d.zones;
    }

    function Value(): DInode
      reads this
    {
      DInode(mode, uid, size, time, gid, nlinks, zones)
    }
  }

  ghost function VolumeOf(disk: RamDisk, zmap: array<bv32>): Volume
    reads disk.data, zmap
  {
    Volume(disk.Contents(), Bits(zmap[..]))
  }

  /** The caller's zone map has the size the superblock announces and is not device memory. */
  predicate ZoneMapOf(disk: RamDisk, sb: Super, zmap: array<bv32>)
  {
    zmap.Length == 256 * sb.bmapBlocks as int && zmap as object != disk.data
  }

  /** minix_block_alloc(). */
  method BlockAlloc(sb: Super, zmap: array<bv32>) returns (num: u16)
    requires zmap.Length == 256 * sb.bmapBlocks as int
    modifies zmap
    ensures Alloc(Bits(zmap[..]), num) == Allocated(sb, old(Bits(zmap[..])))
  {
    if sb.magic != MAGIC {
      return NULL_BLOCK;
    }
    FirstFreeExact(Bits(zmap[..]), sb.bmapBlocks as int * 1024);
    var bit := FindFirstFree(zmap, sb.bmapBlocks as int * 1024);
    if bit == FULL {
      return NULL_BLOCK;
    }
    Set(zmap, bit);
    return (sb.firstData as int + bit) % 0x1_0000;
  }

  /** minix_block_free_direct(): 0 on success. `zmap` is the memory from the start of the zone map on; it
      has to reach the bit that is cleared. */
  method BlockFreeDirect(sb: Super, zmap: array<bv32>, num: u16) returns (ret: int)
    requires Freeable(sb, num) ==> ZoneBit(sb, num) < 32 * zmap.Length
    modifies zmap
    ensures Freed(Bits(zmap[..]), ret == 0) == FreedDirect(sb, old(Bits(zmap[..])), num)
    ensures ret == 0 || ret == EINVAL
  {
    if sb.magic != MAGIC || num == NULL_BLOCK {
      return EINVAL;
    }
    var bit := ZoneBit(sb, num);
    if bit >= sb.nblocks {
      return EINVAL;
    }
    Clear(zmap, bit);
    return 0;
  }

  /** Fills zone `k` of the inode if it is empty and blocks are to be created. */
  method FillZone(disk: RamDisk, sb: Super, zmap: array<bv32>, ip: Inode, k: nat, create: bool)
    requires ZoneMapOf(disk, sb, zmap) && k <= ZONE_SINGLE
    modifies zmap, ip`zones
    ensures Mapping(VolumeOf(disk, zmap), ip.Value(), Block(ip.zones[k]))
         == old(ZoneMapped(sb, VolumeOf(disk, zmap), ip.Value(), k, create))
  {
    if ip.zones[k] == NULL_BLOCK && create {
      var phys := BlockAlloc(sb, zmap);
      ip.zones := ip.zones[k := phys];
    }
  }

  /** The code's outcome `r` is `m`. When an uninitialised buffer decides, the number reported is open,
      and with it whether a block was allocated; nothing was written all the same. */
  ghost predicate MeetsMapping(sb: Super, m: Mapping, r: Mapping)
  {
    if !m.outcome.Garbage? then r == m
    else
      && r.outcome.Block? && r.vol.disk == m.vol.disk && r.ip == m.ip
      && (r.vol.zmap == m.vol.zmap || r.vol.zmap == Allocated(sb, m.vol.zmap).zmap)
  }

  /** minix_block_map(). */
  method BlockMap(disk: RamDisk, sb: Super, zmap: array<bv32>, ip: Inode, off: nat, create: bool)
    returns (r: Outcome)
    requires ZoneMapOf(disk, sb, zmap)
    modifies disk.data, zmap, ip
    ensures var m := old(Mapped(sb, VolumeOf(disk, zmap), ip.Value(), off, create));
      MeetsMapping(sb, m, Mapping(VolumeOf(disk, zmap), ip.Value(), r))
  {
    var logic := LogicOf(off);
    if sb.magic != MAGIC {
      return Block(NULL_BLOCK);
    }
    if off % 0x1_0000_0000 >= sb.maxSize {
      return Block(NULL_BLOCK);
    }
    var create := create || off % 0x1_0000_0000 < ip.size;
    r := LogicalMap(disk, sb, zmap, ip, logic, create);
  }

  /** minix_block_map() after the offset checks. */
  method LogicalMap(disk: RamDisk, sb: Super, zmap: array<bv32>, ip: Inode, logic: nat, create: bool)
    returns (r: Outcome)
    requires ZoneMapOf(disk, sb, zmap)
    modifies disk.data, zmap, ip
    ensures var m := old(BlockMapped(sb, VolumeOf(disk, zmap), ip.Value(), logic, create));
      MeetsMapping(sb, m, Mapping(VolumeOf(disk, zmap), ip.Value(), r))
  {
    if logic < DIRECT {
      FillZone(disk, sb, zmap, ip, logic, create);
      return Block(ip.zones[logic]);
    }
    if logic - DIRECT < SINGLE {
      FillZone(disk, sb, zmap, ip, ZONE_SINGLE, create);
      if ip.zones[ZONE_SINGLE] == NULL_BLOCK {
        return Panic;
      }
      r := EntryMap(disk, sb, zmap, ip, logic - DIRECT, create);
      return;
    }
    return Panic;
  }

  /** The single-indirect part of minix_block_map(): the block is read into a stack buffer,
      and written back when an entry was added. */
  method EntryMap(disk: RamDisk, sb: Super, zmap: array<bv32>, ip: Inode, logic: nat, create: bool)
    returns (r: Outcome)
    requires ZoneMapOf(disk, sb, zmap) && logic < SINGLE && ip.zones[ZONE_SINGLE] != NULL_BLOCK
    modifies disk.data, zmap
    ensures var m := old(EntryMapped(sb, Mapping(VolumeOf(disk, zmap), ip.Value(), Panic), logic, create));
      MeetsMapping(sb, m, Mapping(VolumeOf(disk, zmap), ip.Value(), r))
  {
    var stack := new byte[1024];
    var buf := stack[..];
    var off := ip.zones[ZONE_SINGLE] as int * 1024;
    var n, bytes := disk.Read(0, 1024, off);
    if n == 1024 {
      buf := bytes;
      SliceWord(disk.Contents(), off, logic);
    }
    if Get16(buf, 2 * logic) == NULL_BLOCK && create {
      var phys := BlockAlloc(sb, zmap);
      StoreEntry(disk, off, buf, logic, phys);
      return Block(phys);
    }
    return Block(Get16(buf, 2 * logic));
  }

  lemma SliceWord(image: Image, off: nat, j: nat)
    requires off + 1024 <= |image| && j < SINGLE
    ensures Get16(image[off..off + 1024], 2 * j) == Get16(image, off + 2 * j)
  {}

  /** `buf[logic] = phys` and the write-back of the indirect block. */
  method StoreEntry(disk: RamDisk, off: nat, buf: Image, logic: nat, phys: u16)
    requires |buf| == 1024 && logic < SINGLE
    modifies disk.data
    ensures InRange(old(disk.Contents()), off, 1024) && buf == old(disk.Contents()[off..off + 1024]) ==>
      disk.Contents() == Splice(old(disk.Contents()), off + 2 * logic, Put16(phys))
    ensures !InRange(old(disk.Contents()), off, 1024) ==> disk.Contents() == old(disk.Contents())
  {
    ghost var image := disk.Contents();
    if off + 1024 <= |image| { SpliceNested(image, off, 1024, 2 * logic, Put16(phys)); }
    var _ := disk.Write(0, Splice(buf, 2 * logic, Put16(phys)), off);
  }

  // ----- directories

  /** What minix_dirent_search() reports: an offset on the device, a negative code, or a crash. */
  datatype Search = At(off: int) | Failed(code: int) | Crashed

  /** A directory without holes on a sound volume: where the scan is specified. */
  ghost predicate Scannable(sb: Super, vol: Volume, ip: DInode)
  {
    && Fits(sb, vol) && IsDir(ip.mode) && HoleFree(vol.disk, ip)
    && CAPACITY * DIRENT_SIZE <= sb.maxSize
  }

  /** The last free slot among the first `i`, or -1. */
  ghost predicate FreeSoFar(t: Table, i: nat, entry: int)
  {
    && i <= |t| && -1 <= entry < i
    && (entry >= 0 ==> t[entry].Free?)
    && forall j: nat | entry < j < i :: t[j].Used?
  }

  lemma {:induction false} FreeSoFarIsLast(t: Table, entry: int)
    requires FreeSoFar(t, |t|, entry)
    ensures entry == LastFree(t)
  {}

  /** Where the scan stands: at the start of block `q`, or inside it at entry `i`. */
  ghost predicate Position(disk: Image, ip: DInode, i: int, q: nat, blk: u16, base: int, off: int)
  {
    && 64 * q <= i <= 64 * q + 64 && i <= Length(ip) <= CAPACITY
    && (base < 0 ==> i == 64 * q && (i < Length(ip) ==> blk == Ref(disk, ip, q)))
    && (base >= 0 ==>
          && 64 * q < Length(ip) && blk == Ref(disk, ip, q)
          && base == blk as int * 1024 && off == 16 * (i - 64 * q))
  }

  /** The scan has passed `i` entries: none is called `name`, and `entry` is the last free one. */
  ghost predicate Scanned(disk: Image, ip: DInode, name: CString, i: int, q: nat, blk: u16, base: int, off: int, entry: int)
  {
    && Position(disk, ip, i, q, blk, base, off)
    && FreeSoFar(Entries(disk, ip), i, entry)
    && forall j: nat | j < i :: !Holds(Entries(disk, ip), j, name)
  }

  lemma HoleFreeBound(disk: Image, ip: DInode)
    requires HoleFree(disk, ip)
    ensures Length(ip) <= CAPACITY
  {
    assert !Present(disk, ip, CAPACITY);
  }

  lemma StartScan(disk: Image, ip: DInode, name: CString)
    requires HoleFree(disk, ip)
    ensures Scanned(disk, ip, name, 0, 0, ip.zones[0], -1, 0, -1)
  {
    HoleFreeBound(disk, ip);
  }

  /** Inside a block, the scan is at the slot of entry `i`. */
  lemma AtEntry(disk: Image, ip: DInode, i: nat, q: nat, blk: u16)
    requires HoleFree(disk, ip) && 64 * q <= i < 64 * q + 64 && i < Length(ip) <= CAPACITY
    requires blk == Ref(disk, ip, q)
    ensures Present(disk, ip, i) && blk != NULL_BLOCK
    ensures EntryAt(disk, ip, i) == blk as int * 1024 + 16 * (i - 64 * q)
  {
    assert i / 64 == q && i % 64 == i - 64 * q;
    assert Present(disk, ip, i);
  }

  /** No block of the directory is null when the scan looks at it. */
  lemma NoHole(disk: Image, ip: DInode, i: nat, q: nat, blk: u16, base: int, off: int)
    requires HoleFree(disk, ip) && Position(disk, ip, i, q, blk, base, off) && i < Length(ip)
    ensures blk != NULL_BLOCK
    ensures base >= 0 && off >= 1024 ==> i == 64 * q + 64
    ensures base < 0 || off < 1024 ==> i < 64 * q + 64
  {
    assert Present(disk, ip, 64 * q);
    assert (64 * q) / 64 == q;
  }

  lemma NextHit(sb: Super, vol: Volume, ip: DInode, i: nat, create: bool)
    requires Scannable(sb, vol, ip) && i < Length(ip) <= CAPACITY
    ensures Mapped(sb, vol, ip, i * 16, create) == Mapping(vol, ip, Block(Ref(vol.disk, ip, i / 64)))
  {
    assert Present(vol.disk, ip, i);
    EntryIndex(i);
    MappedHit(sb, vol, ip, i * 16, create);
  }

  lemma PassEntry(disk: Image, ip: DInode, name: CString, i: nat, q: nat, blk: u16, base: int, off: int, entry: int)
    requires HoleFree(disk, ip) && Scanned(disk, ip, name, i, q, blk, base, off, entry)
    requires i < Length(ip) && base >= 0 && off < 1024 && !Holds(Entries(disk, ip), i, name)
    ensures Scanned(disk, ip, name, i + 1, q, blk, base, off + 16, if Entries(disk, ip)[i].Free? then i else entry)
  {}

  /** The read and the name test of one scan step. */
  method ReadEntry(disk: RamDisk, at: int, name: CString) returns (ok: bool, live: bool, same: bool)
    requires |name| <= NAME_MAX
    ensures ok <==> InRange(disk.Contents(), at, DIRENT_SIZE)
    ensures ok ==> var d := GetDirent(disk.Contents()[at..at + DIRENT_SIZE]);
      live == SlotOf(d).Used? && (live ==> same == (SlotOf(d).key == name))
  {
    var n, bytes := disk.Read(0, DIRENT_SIZE, at);
    if n != DIRENT_SIZE { return false, false, false; }
    var d := GetDirent(bytes);
    SamePrefixIff(d.name, name);
    return true, d.ino != NULL_INODE, SamePrefix(d.name, name, NAME_MAX);
  }

  /** minix_block_map() for entry `i`, as the scan calls it: on a directory without holes it
      finds the block and changes nothing. */
  method EntryBlock(disk: RamDisk, sb: Super, zmap: array<bv32>, dip: Inode, i: nat) returns (m: Outcome)
    requires ZoneMapOf(disk, sb, zmap)
    modifies disk.data, zmap, dip
    ensures var vol, ip := old(VolumeOf(disk, zmap)), old(dip.Value());
      Scannable(sb, vol, ip) && i < Length(ip) <= CAPACITY ==>
        VolumeOf(disk, zmap) == vol && dip.Value() == ip && m == Block(Ref(vol.disk, ip, i / 64))
  {
    ghost var vol, ip := VolumeOf(disk, zmap), dip.Value();
    if Scannable(sb, vol, ip) && i < Length(ip) <= CAPACITY { NextHit(sb, vol, ip, i, false); }
    m := BlockMap(disk, sb, zmap, dip, i * 16, false);
  }

  /** How the scanning loop ends. */
  datatype Scan = Hit(off: int) | Miss(entry: int) | Broken

  /** The outcome of a linear scan of the flat table. */
  ghost predicate LinearScan(disk: Image, ip: DInode, name: CString, r: Scan)
  {
    var t := Entries(disk, ip);
    var k := Find(t, name);
    && (k < |t| ==> Present(disk, ip, k) && r == Hit(EntryAt(disk, ip, k)))
    && (k == |t| ==> r == Miss(LastFree(t)))
  }

  lemma ScanHit(disk: Image, ip: DInode, name: CString, i: nat)
    requires i < Length(ip) && Present(disk, ip, i) && Holds(Entries(disk, ip), i, name)
    requires forall j: nat | j < i :: !Holds(Entries(disk, ip), j, name)
    ensures LinearScan(disk, ip, name, Hit(EntryAt(disk, ip, i)))
  {
    var k := Find(Entries(disk, ip), name);
    assert k == i;
  }

  lemma ScanMiss(disk: Image, ip: DInode, name: CString, entry: int)
    requires FreeSoFar(Entries(disk, ip), Length(ip), entry)
    requires forall j: nat | j < Length(ip) :: !Holds(Entries(disk, ip), j, name)
    ensures LinearScan(disk, ip, name, Miss(entry))
  {
    FreeSoFarIsLast(Entries(disk, ip), entry);
  }

  /** One step of the scan inside a block: the entry is read; it is the one sought, or a free one to
      remember, or it is passed. */
  method VisitEntry(disk: RamDisk, name: CString, i: nat, base: int, off: nat, entry: int,
                    ghost scan: bool, ghost ip: DInode, ghost q: nat, ghost blk: u16)
    returns (ok: bool, hit: bool, entry': int)
    requires |name| <= NAME_MAX && -1 <= entry < i
    requires scan ==>
      && HoleFree(disk.Contents(), ip) && Scanned(disk.Contents(), ip, name, i, q, blk, base, off, entry)
      && i < Length(ip) && base >= 0 && off < 1024
    ensures entry' == entry || entry' == i
    ensures scan ==>
      && ok
      && (hit ==> LinearScan(disk.Contents(), ip, name, Hit(base + off)))
      && (!hit ==> Scanned(disk.Contents(), ip, name, i + 1, q, blk, base, off + 16, entry'))
  {
    entry' := entry;
    if scan { AtEntry(disk.Contents(), ip, i, q, blk); }
    var live, same;
    ok, live, same := ReadEntry(disk, base + off, name);
    hit := ok && live && same;
    if scan && hit { ScanHit(disk.Contents(), ip, name, i); }
    if ok && !live { entry' := i; }
    if scan && !hit { PassEntry(disk.Contents(), ip, name, i, q, blk, base, off, entry); }
  }

  /** The scanning loop of minix_dirent_search(), which hops from block to block. Going to the
      next block does not advance `i`, so it terminates by a lexicographic measure. On every
      directory without holes it is a linear scan of the flat table and changes nothing. */
  method ScanEntries(disk: RamDisk, sb: Super, zmap: array<bv32>, dip: Inode, name: CString) returns (r: Scan)
    requires ZoneMapOf(disk, sb, zmap) && |name| <= NAME_MAX
    modifies disk.data, zmap, dip
    ensures var vol, ip := old(VolumeOf(disk, zmap)), old(dip.Value());
      Scannable(sb, vol, ip) ==>
        VolumeOf(disk, zmap) == vol && dip.Value() == ip && LinearScan(vol.disk, ip, name, r)
    ensures r.Miss? ==> -1 <= r.entry < old(dip.size) / 16 + 1
  {
    ghost var vol, ip := VolumeOf(disk, zmap), dip.Value();
    ghost var scan := Scannable(sb, vol, ip);
    ghost var q := 0;
    var nentries := dip.size / 16;
    var entry, i := -1, 0;
    var blk := dip.zones[0];
    var off, base := 0, -1;
    if scan { StartScan(vol.disk, ip, name); }
    while i < nentries
      invariant 0 <= i && 0 <= off && -1 <= base && -1 <= entry < i && entry < nentries
      invariant scan ==> VolumeOf(disk, zmap) == vol && dip.Value() == ip
      invariant scan ==> Scanned(vol.disk, ip, name, i, q, blk, base, off, entry)
      decreases nentries - i, base >= 0 && off >= 1024
    {
      if scan { NoHole(vol.disk, ip, i, q, blk, base, off); }
      if blk == NULL_BLOCK {
        i := i + 64;
        var m := EntryBlock(disk, sb, zmap, dip, i);
        if !m.Block? { return Broken; }
        blk := m.num;
        continue;
      }
      if base < 0 {
        off := 0;
        base := blk as int * 1024;
      } else if off >= 1024 {
        base := -1;
        var m := EntryBlock(disk, sb, zmap, dip, i);
        if !m.Block? { return Broken; }
        blk := m.num;
        q := q + 1;
        continue;
      }
      var ok, hit;
      ok, hit, entry := VisitEntry(disk, name, i, base, off, entry, scan, ip, q, blk);
      if !ok { return Broken; }
      if hit { return Hit(base + off); }
      i := i + 1;
      off := off + 16;
    }
    if scan { ScanMiss(vol.disk, ip, name, entry); }
    return Miss(entry);
  }

  /** What minix_dirent_search() does to a volume and a directory. */
  datatype Searched = Searched(vol: Volume, ip: DInode, result: Search)

  /** minix_dirent_search() on a directory without holes, as a linear search. */
  ghost function SearchSpec(sb: Super, vol: Volume, ip: DInode, name: CString, create: bool): Searched
    requires HoleFree(vol.disk, ip)
  {
    var t := Entries(vol.disk, ip);
    var k := Find(t, name);
    if k < |t| then
      assert Present(vol.disk, ip, k);
      Searched(vol, ip, if create then Failed(EEXIST) else At(EntryAt(vol.disk, ip, k)))
    else if !create then Searched(vol, ip, Failed(-1))
    else if LastFree(t) >= 0 then
      assert Present(vol.disk, ip, LastFree(t));
      Searched(vol, ip, At(EntryAt(vol.disk, ip, LastFree(t))))
    else
      var m := NextBlock(sb, vol, ip);
      match m.outcome
      case Block(b) => Searched(m.vol, Enlarged(m.ip), At(Place(b, Length(ip))))
      case _ => Searched(m.vol, m.ip, Crashed)
  }

  /** The specification of a search says something: when it has to enlarge the directory, no
      uninitialised buffer is involved. */
  ghost predicate Defined(sb: Super, vol: Volume, ip: DInode, name: CString, create: bool)
  {
    && Scannable(sb, vol, ip)
    && (create && Find(Entries(vol.disk, ip), name) == Length(ip) && LastFree(Entries(vol.disk, ip)) < 0 ==>
          !NextBlock(sb, vol, ip).outcome.Garbage?)
  }

  /** On a sound volume with room an addition is defined: what the run theorems say of `Added` is what
      the code does. */
  lemma {:induction false} RoomIsDefined(sb: Super, vol: Volume, files: seq<DInode>, f: nat, name: CString)
    requires FsInv(sb, vol, files) && f < |files| && IsDir(files[f].mode) && CanAdd(sb, vol, files[f])
    ensures Defined(sb, vol, files[f], name, true)
  {
    assert DirOk(vol.disk, files[f]);
    if LastFree(Entries(vol.disk, files[f])) < 0 { MappedReady(sb, vol, files, f); }
  }

  /** minix_dirent_search(). */
  method DirentSearch(disk: RamDisk, sb: Super, zmap: array<bv32>, dip: Inode, name: CString, create: bool)
    returns (r: Search)
    requires ZoneMapOf(disk, sb, zmap)
    modifies disk.data, zmap, dip
    ensures var vol, ip := old(VolumeOf(disk, zmap)), old(dip.Value());
      && (!IsDir(ip.mode) ==> Searched(VolumeOf(disk, zmap), dip.Value(), r) == Searched(vol, ip, Failed(EINVAL)))
      && (IsDir(ip.mode) && |name| > NAME_MAX ==>
            Searched(VolumeOf(disk, zmap), dip.Value(), r) == Searched(vol, ip, Failed(ENAMETOOLONG)))
      && (Defined(sb, vol, ip, name, create) && |name| <= NAME_MAX ==>
            Searched(VolumeOf(disk, zmap), dip.Value(), r) == SearchSpec(sb, vol, ip, name, create))
  {
    if !IsDir(dip.mode) {
      return Failed(EINVAL);
    }
    if |name| > NAME_MAX {
      return Failed(ENAMETOOLONG);
    }
    ghost var vol, ip := VolumeOf(disk, zmap), dip.Value();
    if Scannable(sb, vol, ip) { HoleFreeBound(vol.disk, ip); }
    var nentries := dip.size / 16;
    var s := ScanEntries(disk, sb, zmap, dip, name);
    if s.Broken? {
      return Crashed;
    }
    if s.Hit? {
      return if create then Failed(EEXIST) else At(s.off);
    }
    if !create {
      return Failed(-1);
    }
    if s.entry < 0 {
      var m := BlockMap(disk, sb, zmap, dip, nentries * 16, true);
      if !m.Block? { return Crashed; }
      dip.size := (dip.size as int + 16) % 0x1_0000_0000;
      return At(Place(m.num, nentries));
    }
    var m := EntryBlock(disk, sb, zmap, dip, s.entry);
    if !m.Block? { return Crashed; }
    return At(Place(m.num, s.entry));
  }

  /** minix_dirent_add(). */
  method DirentAdd(disk: RamDisk, sb: Super, zmap: array<bv32>, dip: Inode, name: CString, num: u16)
    returns (r: Ret)
    requires ZoneMapOf(disk, sb, zmap)
    modifies disk.data, zmap, dip
    ensures var vol, ip := old(VolumeOf(disk, zmap)), old(dip.Value());
      !IsDir(ip.mode) || |name| > NAME_MAX || num == NULL_INODE || Defined(sb, vol, ip, name, true) ==>
        DirResult(VolumeOf(disk, zmap), dip.Value(), r) == Added(sb, vol, ip, name, num)
  {
    ghost var vol, ip := VolumeOf(disk, zmap), dip.Value();
    if !IsDir(dip.mode) { return Code(EINVAL); }
    if |name| > NAME_MAX { return Code(ENAMETOOLONG); }
    if num == NULL_INODE { return Code(EINVAL); }
    if Defined(sb, vol, ip, name, true) { AddedFrom(sb, vol, ip, name, num); }
    r := AddFound(disk, sb, zmap, dip, name, num);
  }

  /** minix_dirent_add() after its argument checks. */
  method AddFound(disk: RamDisk, sb: Super, zmap: array<bv32>, dip: Inode, name: CString, num: u16)
    returns (r: Ret)
    requires ZoneMapOf(disk, sb, zmap) && |name| <= NAME_MAX
    modifies disk.data, zmap, dip
    ensures var vol, ip := old(VolumeOf(disk, zmap)), old(dip.Value());
      Defined(sb, vol, ip, name, true) ==>
        DirResult(VolumeOf(disk, zmap), dip.Value(), r)
        == AfterSearch(SearchSpec(sb, vol, ip, name, true), NewEntry(name, num))
  {
    var s := DirentSearch(disk, sb, zmap, dip, name, true);
    match s {
      case Crashed => return Crash;
      case Failed(_) => return Code(EAGAIN);
      case At(off) => r := StoreAt(disk, zmap, dip, off, NewEntry(name, num));
    }
  }

  /** The tail of minix_dirent_add(): reads the slot, fills it and writes it back. */
  method StoreAt(disk: RamDisk, zmap: array<bv32>, dip: Inode, off: int, d: Dirent) returns (r: Ret)
    requires zmap as object != disk.data
    modifies disk.data, dip
    ensures DirResult(VolumeOf(disk, zmap), dip.Value(), r) == StoredAt(old(VolumeOf(disk, zmap)), old(dip.Value()), off, d)
  {
    var n, _ := disk.Read(0, DIRENT_SIZE, off);
    if n != DIRENT_SIZE { return Crash; }
    var w := disk.Write(0, PutDirent(d), off);
    dip.nlinks := (dip.nlinks as int + 1) % 256;
    dip.time := 0;
    return Code(0);
  }

  ghost function StoredAt(vol: Volume, ip: DInode, off: int, d: Dirent): DirResult
  {
    if InRange(vol.disk, off, DIRENT_SIZE) then Stored(vol, ip, off, d) else DirResult(vol, ip, Crash)
  }

  /** What minix_dirent_add() makes of the outcome of its search. */
  ghost function AfterSearch(s: Searched, d: Dirent): DirResult
  {
    match s.result
    case Crashed => DirResult(s.vol, s.ip, Crash)
    case Failed(_) => DirResult(s.vol, s.ip, Code(EAGAIN))
    case At(off) => StoredAt(s.vol, s.ip, off, d)
  }

  /** minix_dirent_add() in terms of the search. */
  lemma AddedFrom(sb: Super, vol: Volume, ip: DInode, name: CString, num: u16)
    requires Defined(sb, vol, ip, name, true) && |name| <= NAME_MAX && num != NULL_INODE
    ensures Added(sb, vol, ip, name, num) == AfterSearch(SearchSpec(sb, vol, ip, name, true), NewEntry(name, num))
  {
    var t := Entries(vol.disk, ip);
    if Find(t, name) == |t| && LastFree(t) >= 0 {
      assert Present(vol.disk, ip, LastFree(t));
      StoredIs(vol, ip, EntryAt(vol.disk, ip, LastFree(t)), NewEntry(name, num));
    } else if Find(t, name) == |t| {
      var m := NextBlock(sb, vol, ip);
      if m.outcome.Block? { StoredIs(m.vol, Enlarged(m.ip), Place(m.outcome.num, |t|), NewEntry(name, num)); }
    }
  }

  lemma StoredIs(vol: Volume, ip: DInode, off: nat, d: Dirent)
    ensures StoredAt(vol, ip, off, d) == Stored(vol, ip, off, d)
  {}
}
