/**
  Formatting a device (minix_mkfs() in src/sys/fs/vfs/minix/minix.c): the image it leaves can be
  mounted, satisfies the invariant of all files, and holds the initial root directory.
 */
module MinixMkfs {
  import opened Disk
  import opened MinixFormat
  import opened Bitmaps
  import opened SlotTable
  import opened MinixBlocks
  import opened MinixDir
  import opened MinixDriver
  import opened MinixRun
  import opened MinixVolume
  import opened MinixSuper
  import opened MinixFs

  /** drwxr-xr-x, and the same mode with the type bits of a block device added. */
  const ROOT_MODE: u16 := 0x41ED
  const DISK_MODE: u16 := 0x61ED

  /** NANVIX_DISK_SIZE. */
  const DISK_SIZE: u32 := 64 * 1024

  const DOTDOT: CString := [46, 46]
  const DISK_NAME: CString := [100, 105, 115, 107]

  /** The device holds the volume, the layout has no overlaps, and there is a data block. */
  predicate Formattable(ninodes: u16, nblocks: u16, size: nat)
  {
    && 4 <= ninodes && (ninodes <= 32 || ninodes % 32 == 0)
    && FormatSuper(ninodes, nblocks).firstData < nblocks
    && nblocks as int * 1024 <= size
  }

  lemma FormattableFits(ninodes: u16, nblocks: u16, size: nat)
    requires Formattable(ninodes, nblocks, size)
    ensures var sb := FormatSuper(ninodes, nblocks);
      && sb.magic == MAGIC && 4 <= sb.ninodes && 1 <= sb.imapBlocks && 1 <= sb.bmapBlocks <= 8
      && InodesFit(sb) && 0 < sb.firstData < sb.nblocks && sb.nblocks as int * 1024 <= size
      && CAPACITY * 16 <= sb.maxSize <= 0x1_0000 * 1024
  {
    InodesFitIff(ninodes, nblocks);
  }

  /** The state of a volume being formatted: the root directory has the table `t`. */
  ghost predicate RootState(sb: Super, vol: Volume, root: DInode, dev: DInode, t: Table)
  {
    && FsInv(sb, vol, [root, dev])
    && IsDir(root.mode) && !IsDir(dev.mode)
    && Entries(vol.disk, root) == t
    && 8192 <= |vol.zmap| <= 0x1_0000 && sb.firstData < sb.nblocks && ZonesInside(sb, vol.zmap)
    && NSet(vol.zmap) <= if t == [] then 0 else 1
  }

  lemma {:induction false} CountClear(b: Bitmap, n: nat)
    requires n <= |b| && forall i: nat | i < n :: !b[i]
    ensures Count(b, n) == 0
  {
    if n != 0 { CountClear(b, n - 1); }
  }

  lemma StartRoot(sb: Super, vol: Volume, root: DInode, dev: DInode)
    requires Fits(sb, vol) && InodesFit(sb) && CAPACITY * 16 <= sb.maxSize && sb.firstData < sb.nblocks
    requires forall i: nat | sb.firstData as int * 1024 <= i < |vol.disk| && i < sb.nblocks as int * 1024 :: vol.disk[i] == 0
    requires forall i: nat | i < |vol.zmap| :: !vol.zmap[i]
    requires 8192 <= |vol.zmap| <= 0x1_0000 && IsDir(root.mode) && !IsDir(dev.mode) && root.size == 0
    requires root.zones == dev.zones == [0, 0, 0, 0, 0, 0, 0, 0, 0]
    ensures RootState(sb, vol, root, dev, [])
  {
    FreshVolume(sb, vol, [root, dev]);
    CountClear(vol.zmap, |vol.zmap|);
    assert Entries(vol.disk, root) == [];
    assert DirOk(vol.disk, root);
  }

  /** Every slot is used and there is space for another one in the first block. */
  ghost predicate Packed(t: Table)
  {
    |t| < 63 && forall i: nat | i < |t| :: t[i].Used?
  }

  lemma FirstBlock(sb: Super, vol: Volume, root: DInode)
    requires sb.magic == MAGIC && CAPACITY * 16 <= sb.maxSize <= 0x1_0000 * 1024 && Length(root) < 64
    ensures NextBlock(sb, vol, root) == ZoneMapped(sb, vol, root, 0, true)
  {
    MappedIsBlock(sb, vol, root, Length(root) * 16, true);
    assert Length(root) * 16 / 1024 == 0;
  }

  lemma RootDefined(sb: Super, vol: Volume, root: DInode, dev: DInode, t: Table, name: CString)
    requires RootState(sb, vol, root, dev, t) && Packed(t)
    ensures Defined(sb, vol, root, name, true)
  {
    var files := [root, dev];
    assert files[0] == root && DirOk(vol.disk, files[0]);
    FirstBlock(sb, vol, root);
  }

  lemma {:induction false} RootNeed(disk: Image, root: DInode, t: Table)
    requires HoleFree(disk, root) && Entries(disk, root) == t && Packed(t)
    ensures LastFree(t) < 0 && Length(root) == |t| && AddNeed(disk, root) <= if t == [] then 1 else 0
  {
    assert Length(root) / 64 == 0;
    if t != [] { assert Present(disk, root, 0); }
  }

  lemma {:induction false} RootCanGrow(sb: Super, vol: Volume, root: DInode, dev: DInode, t: Table)
    requires RootState(sb, vol, root, dev, t) && Packed(t)
    ensures CanAdd(sb, vol, root) && LastFree(t) < 0
    ensures NSet(vol.zmap) + AddNeed(vol.disk, root) <= 1
  {
    var files := [root, dev];
    assert files[0] == root && DirOk(vol.disk, files[0]);
    RootNeed(vol.disk, root, t);
  }

  /** Adding a new name to the root directory being built appends it, and touches no byte
      below the data area. */
  lemma {:induction false} RootGrows(sb: Super, vol: Volume, root: DInode, dev: DInode, t: Table, name: CString, num: u16)
    requires RootState(sb, vol, root, dev, t) && Packed(t)
    requires |name| <= NAME_MAX && num != NULL_INODE && Find(t, name) == |t|
    ensures var r := Added(sb, vol, root, name, num);
      r.ret == Code(0) && RootState(sb, r.vol, r.ip, dev, t + [Used(name, num)])
  {
    RootCanGrow(sb, vol, root, dev, t);
    AddedAtEnd(sb, vol, [root, dev], 0, name, num);
    AddedMode(sb, vol, root, name, num);
    AddedInside(sb, vol, [root, dev], 0, name, num);
    RootAppended(sb, vol, root, dev, Used(name, num), Added(sb, vol, root, name, num));
  }

  lemma RootAppended(sb: Super, vol: Volume, root: DInode, dev: DInode, s: Slot<CString, u16>, r: DirResult)
    requires Appended(sb, vol, [root, dev], 0, s, r) && r.ip.mode == root.mode && IsDir(root.mode) && !IsDir(dev.mode)
    requires 8192 <= |r.vol.zmap| <= 0x1_0000 && ZonesInside(sb, r.vol.zmap) && NSet(r.vol.zmap) <= 1 && sb.firstData < sb.nblocks
    ensures RootState(sb, r.vol, r.ip, dev, Entries(vol.disk, root) + [s])
  {
    assert [root, dev][0 := r.ip] == [r.ip, dev];
  }

  /** Storing an entry in a data block leaves everything below the data area alone. */
  lemma StoreKeepsBelow(vol: Volume, ip: DInode, b: nat, k: nat, d: Dirent, lo: nat)
    requires lo <= b && (b + 1) * 1024 <= |vol.disk|
    ensures var r := Stored(vol, ip, Place(b, k), d);
      && |r.vol.disk| == |vol.disk| && r.vol.zmap == vol.zmap
      && forall i: nat | i < |vol.disk| && i < lo * 1024 :: r.vol.disk[i] == vol.disk[i]
  {}

  lemma {:induction false} RootFrame(sb: Super, vol: Volume, root: DInode, dev: DInode, t: Table, name: CString, num: u16)
    requires RootState(sb, vol, root, dev, t) && Packed(t)
    requires |name| <= NAME_MAX && num != NULL_INODE && Find(t, name) == |t|
    ensures var r := Added(sb, vol, root, name, num);
      && |r.vol.disk| == |vol.disk| && |r.vol.zmap| == |vol.zmap|
      && forall i: nat | i < |vol.disk| && i < sb.firstData as int * 1024 :: r.vol.disk[i] == vol.disk[i]
  {
    var m := NextBlock(sb, vol, root);
    RootCanGrow(sb, vol, root, dev, t);
    FirstBlock(sb, vol, root);
    RootBlock(sb, vol, root, dev, t);
    StoreKeepsBelow(m.vol, Enlarged(m.ip), m.outcome.num, Length(root), NewEntry(name, num), sb.firstData);
  }

  /** The block the next entry goes to belongs to the data area of the device. */
  lemma RootBlock(sb: Super, vol: Volume, root: DInode, dev: DInode, t: Table)
    requires RootState(sb, vol, root, dev, t) && Packed(t)
    ensures var m := ZoneMapped(sb, vol, root, 0, true);
      sb.firstData <= m.outcome.num < sb.nblocks && (m.outcome.num as int + 1) * 1024 <= |vol.disk|
  {
    var files := [root, dev];
    var m := ZoneMapped(sb, vol, root, 0, true);
    RootCanGrow(sb, vol, root, dev, t);
    FirstBlock(sb, vol, root);
    MappedReady(sb, vol, files, 0);
    assert Ref(m.vol.disk, files[0 := m.ip][0], 0) == m.ip.zones[0];
  }

  /** Writes to the inode table do not disturb the root directory being built. */
  lemma RootStays(sb: Super, vol: Volume, root: DInode, dev: DInode, t: Table, disk': Image)
    requires RootState(sb, vol, root, dev, t) && TableOnly(sb, vol.disk, disk')
    ensures RootState(sb, vol.(disk := disk'), root, dev, t)
  {
    var files := [root, dev];
    TableOnlyKeepsDirs(sb, vol, files, disk');
    assert files[0] == root;
  }

  // ----- the formatted image

  const ROOT_TABLE: Table := [Used(DOT, 1), Used(DOTDOT, 1), Used(DISK_NAME, 2)]

  /** The root directory of a fresh file system. */
  const ROOT_MAP: map<CString, u16> := map[DOT := 1, DOTDOT := 1, DISK_NAME := 2]

  lemma RootTableIsMap()
    ensures Distinct(ROOT_TABLE) && AsMap(ROOT_TABLE) == ROOT_MAP
  {
    var t := ROOT_TABLE;
    assert t[0] == Used(DOT, 1) && t[1] == Used(DOTDOT, 1) && t[2] == Used(DISK_NAME, 2);
    assert |DOT| == 1 && |DOTDOT| == 2 && |DISK_NAME| == 4;
    assert Holds(t, 0, DOT) && Holds(t, 1, DOTDOT) && Holds(t, 2, DISK_NAME);
    SameMap(t, ROOT_MAP);
  }

  /** Slots 0 and 1 of the inode table. */
  ghost predicate TwoInodes(sb: Super, disk: Image, root: DInode, dev: DInode)
  {
    && InRange(disk, InodeAt(sb, 0), INODE_SIZE) && InRange(disk, InodeAt(sb, 1), INODE_SIZE)
    && InodeIn(sb, disk, 0) == root && InodeIn(sb, disk, 1) == dev
  }

  /** Mounting `disk` yields the superblock `sb`, exactly inodes 1 and 2 in use, one data block in
      use, and a sound file system whose only directory is the initial root. */
  ghost predicate Formatted(disk: Image, sb: Super)
  {
    var m := SuperLoaded(disk);
    && m.Mounted? && m.sb == sb
    && (forall i: nat | i < |m.ibits| :: m.ibits[i] <==> i < 2)
    && NSet(m.zbits) <= 1
    && InRange(disk, InodeAt(sb, 0), INODE_SIZE) && InRange(disk, InodeAt(sb, 1), INODE_SIZE)
    && var st := Files(Volume(disk, m.zbits), [InodeIn(sb, disk, 0), InodeIn(sb, disk, 1)]);
    && RunInv(sb, st)
    && Dirs(st) == map[0 := ROOT_MAP]
  }

  lemma RootDirs(sb: Super, vol: Volume, root: DInode, dev: DInode)
    requires RootState(sb, vol, root, dev, ROOT_TABLE)
    ensures Dirs(Files(vol, [root, dev])) == map[0 := ROOT_MAP]
  {
    RootTableIsMap();
    OneDirectory(vol, root, dev, ROOT_MAP);
  }

  lemma OneDirectory(vol: Volume, root: DInode, dev: DInode, m: map<CString, u16>)
    requires IsDir(root.mode) && !IsDir(dev.mode) && AsMap(Entries(vol.disk, root)) == m
    ensures Dirs(Files(vol, [root, dev])) == map[0 := m]
  {
    var files := [root, dev];
    assert files[0] == root && files[1] == dev;
  }

  lemma FormattedWhenSynced(sb: Super, vol: Volume, root: DInode, dev: DInode, ibits: Bitmap)
    requires RootState(sb, vol, root, dev, ROOT_TABLE) && TwoInodes(sb, vol.disk, root, dev) && 2 <= sb.ninodes
    requires MapsFit(sb, vol.zmap, ibits) && forall i: nat | i < |ibits| :: ibits[i] <==> i < 2
    ensures SuperStored(sb, vol.disk, vol.zmap, ibits).ret == 0
    ensures Formatted(SuperStored(sb, vol.disk, vol.zmap, ibits).disk, sb)
  {
    var st := Files(vol, [root, dev]);
    RemountKeepsAll(sb, st, ibits);
    StoredIsTableOnly(sb, vol.disk, vol.zmap, ibits);
    RootDirs(sb, vol, root, dev);
    StoredKeepsInode(sb, vol.disk, vol.zmap, ibits, 0);
    StoredKeepsInode(sb, vol.disk, vol.zmap, ibits, 1);
  }

  // ----- the code

  /** The zero-filling loop: false when an assertion on a device write fails. */
  method ZeroFill(disk: RamDisk, nblocks: u16) returns (ok: bool)
    modifies disk.data
    ensures ok <==> nblocks as int * 1024 <= |old(disk.Contents())|
    ensures |disk.Contents()| == |old(disk.Contents())|
    ensures ok ==> forall i: nat | i < nblocks as int * 1024 :: disk.Contents()[i] == 0
  {
    var buf: Image := seq(1024, _ => 0);
    var size := nblocks as int * 1024;
    var off, blk := 0, 0;
    while off < size
      invariant 0 <= blk <= nblocks && off == blk * 1024 && off <= disk.data.Length
      invariant forall i: nat | i < off :: disk.data[i] == 0
    {
      ghost var before := disk.Contents();
      var n := disk.Write(0, buf, off);
      if n != 1024 { return false; }
      assert forall i: nat | off <= i < off + 1024 :: disk.Contents()[i] == buf[i - off];
      off, blk := off + 1024, blk + 1;
    }
    return true;
  }

  /** The first `k` inodes are in use. */
  ghost predicate FirstInUse(b: Bitmap, k: nat)
  {
    8192 <= |b| && forall i: nat | i < |b| :: b[i] <==> i < k
  }

  /** With `k` inodes in use the allocator hands out number `k + 1`. */
  lemma AllocNext(sb: Super, disk: Image, bits: Bitmap, ip: DInode, k: u16)
    requires sb.magic == MAGIC && 4 <= sb.ninodes && k < 4 && InodesFit(sb) && sb.firstData as int * 1024 <= |disk|
    requires FirstInUse(bits, k)
    ensures var r := InodeAllocated(sb, disk, bits, ip);
      && r.num == k + 1 && FirstInUse(r.bits, k + 1) && |r.bits| == |bits|
      && InRange(disk, InodeAt(sb, k), INODE_SIZE)
      && r.disk == Splice(disk, InodeAt(sb, k), PutInode(ip))
      && InodeIn(sb, r.disk, k) == ip
  {
    LeastClearIs(bits, k);
    InodeSlotPlace(sb, k);
    InodeWriteRead(sb, disk, ip, k, k);
  }

  lemma AllocAny(sb: Super, disk: Image, bits: Bitmap, ip: DInode, k: u16)
    requires FirstInUse(bits, k) && k < 4
    ensures var r := InodeAllocated(sb, disk, bits, ip);
      && Searchable(sb, bits) && |r.disk| == |disk|
      && (r.num != NULL_INODE ==> 4 <= sb.ninodes && FirstInUse(r.bits, k + 1))
  {
    LeastClearIs(bits, k);
  }

  /** The device being formatted and the in-memory maps fit together. */
  ghost predicate Ready(sb: Super, size: nat)
  {
    && sb.magic == MAGIC && 4 <= sb.ninodes && InodesFit(sb)
    && 0 < sb.firstData < sb.nblocks && sb.nblocks as int * 1024 <= size
    && CAPACITY * 16 <= sb.maxSize <= 0x1_0000 * 1024
  }

  lemma NextInode(sb: Super, disk: Image, bits: Bitmap, ip: DInode, k: u16)
    requires FirstInUse(bits, k) && k < 4
    ensures var r := InodeAllocated(sb, disk, bits, ip);
      && Searchable(sb, bits) && |r.disk| == |disk|
      && (r.num != NULL_INODE ==> 4 <= sb.ninodes && FirstInUse(r.bits, k + 1))
      && (Ready(sb, |disk|) ==>
            && r.num == k + 1 && InRange(disk, InodeAt(sb, k), INODE_SIZE)
            && r.disk == Splice(disk, InodeAt(sb, k), PutInode(ip)) && InodeIn(sb, r.disk, k) == ip)
  {
    AllocAny(sb, disk, bits, ip, k);
    if Ready(sb, |disk|) { AllocNext(sb, disk, bits, ip, k); }
  }

  /** Allocates inode `k + 1` and reads it back. */
  method CreateInode(disk: RamDisk, sb: Super, bits: array<bv32>, mode: u16, uid: u16, gid: u16, now: nat, ghost k: u16)
    returns (num: u16, ret: int, ip: DInode)
    requires bits as object != disk.data && FirstInUse(Bits(bits[..]), k) && k < 4
    modifies disk.data, bits
    ensures |disk.Contents()| == |old(disk.Contents())|
    ensures num != NULL_INODE ==> 4 <= sb.ninodes && FirstInUse(Bits(bits[..]), k + 1)
    ensures Ready(sb, |old(disk.Contents())|) ==>
      && num == k + 1 && ret == 0 && ip == NewInode(mode, uid, gid, now)
      && FirstInUse(Bits(bits[..]), k + 1)
      && InRange(old(disk.Contents()), InodeAt(sb, k), INODE_SIZE)
      && disk.Contents() == Splice(old(disk.Contents()), InodeAt(sb, k), PutInode(ip))
  {
    NextInode(sb, disk.Contents(), Bits(bits[..]), NewInode(mode, uid, gid, now), k);
    num := AllocateInode(disk, sb, bits, mode, uid, gid, now);
    ret, ip := InodeRead(disk, sb, num);
  }

  /** What minix_mkfs() adds to the root directory, one name at a time. */
  lemma RootNames(k: nat)
    requires k < 3
    ensures var t, s := ROOT_TABLE[..k], ROOT_TABLE[k];
      && Packed(t) && s.Used? && |s.key| <= NAME_MAX && s.value != NULL_INODE && Find(t, s.key) == |t|
      && t + [s] == ROOT_TABLE[..k + 1]
  {
    assert |DOT| == 1 && |DOTDOT| == 2 && |DISK_NAME| == 4;
    var t := ROOT_TABLE;
    assert t[0] == Used(DOT, 1) && t[1] == Used(DOTDOT, 1) && t[2] == Used(DISK_NAME, 2);
  }

  /** minix_dirent_add() of name `k` to the root directory being built; its result is not looked at. */
  method AddToRoot(disk: RamDisk, sb: Super, zmap: array<bv32>, root: Inode, name: CString, num: u16,
                   ghost dev: DInode, ghost k: nat)
    requires ZoneMapOf(disk, sb, zmap) && k < 3
    modifies disk.data, zmap, root
    ensures |disk.Contents()| == |old(disk.Contents())|
    ensures ROOT_TABLE[k] == Used(name, num) && RootState(sb, old(VolumeOf(disk, zmap)), old(root.Value()), dev, ROOT_TABLE[..k]) ==>
      && RootState(sb, VolumeOf(disk, zmap), root.Value(), dev, ROOT_TABLE[..k + 1])
      && forall i: nat | i < |disk.Contents()| && i < sb.firstData as int * 1024 ::
           disk.Contents()[i] == old(disk.Contents())[i]
  {
    ghost var vol, ip, t := VolumeOf(disk, zmap), root.Value(), ROOT_TABLE[..k];
    RootNames(k);
    if ROOT_TABLE[k] == Used(name, num) && RootState(sb, vol, ip, dev, t) {
      RootDefined(sb, vol, ip, dev, t, name);
      RootGrows(sb, vol, ip, dev, t, name, num);
      RootFrame(sb, vol, ip, dev, t, name, num);
    }
    var _ := DirentAdd(disk, sb, zmap, root, name, num);
  }

  /** A zero-filled data area and an empty zone map. */
  ghost predicate Blank(sb: Super, vol: Volume)
  {
    && Ready(sb, |vol.disk|) && 8192 <= |vol.zmap| <= 0x1_0000
    && (forall i: nat | i < |vol.zmap| :: !vol.zmap[i])
    && (forall i: nat | i < sb.nblocks as int * 1024 :: vol.disk[i] == 0)
  }

  lemma BlankRoot(sb: Super, vol: Volume, root: DInode, dev: DInode, disk': Image)
    requires Blank(sb, vol) && IsDir(root.mode) && !IsDir(dev.mode) && root.size == 0
    requires root.zones == dev.zones == [0, 0, 0, 0, 0, 0, 0, 0, 0]
    requires InRange(vol.disk, InodeAt(sb, 0), INODE_SIZE) && disk' == Splice(vol.disk, InodeAt(sb, 0), PutInode(root))
    ensures RootState(sb, Volume(disk', vol.zmap), root, dev, ROOT_TABLE[..0])
  {
    SlotWriteIsTableOnly(sb, vol.disk, root, 0);
    forall i: nat | sb.firstData as int * 1024 <= i < |disk'| && i < sb.nblocks as int * 1024 ensures disk'[i] == 0 {
      assert disk'[i] == vol.disk[i];
    }
    StartRoot(sb, Volume(disk', vol.zmap), root, dev);
    assert ROOT_TABLE[..0] == [];
  }

  /** What is known of the disk device's inode while the root is built. */
  ghost predicate DeviceInode(dev: DInode)
  {
    !IsDir(dev.mode) && dev.zones == [0, 0, 0, 0, 0, 0, 0, 0, 0]
  }

  /** Allocates the root's inode. */
  method CreateRoot(disk: RamDisk, sb: Super, zmap: array<bv32>, bits: array<bv32>, uid: u16, gid: u16, now: nat,
                    ghost dev: DInode)
    returns (ok: bool, ip: DInode)
    requires bits as object != disk.data && bits != zmap && ZoneMapOf(disk, sb, zmap) && FirstInUse(Bits(bits[..]), 0)
    modifies disk.data, bits
    ensures |disk.Contents()| == |old(disk.Contents())|
    ensures ok ==> 4 <= sb.ninodes && FirstInUse(Bits(bits[..]), 1)
    ensures Blank(sb, old(VolumeOf(disk, zmap))) && DeviceInode(dev) ==>
      ok && RootState(sb, VolumeOf(disk, zmap), ip, dev, ROOT_TABLE[..0])
  {
    ghost var vol := VolumeOf(disk, zmap);
    var num, ret;
    num, ret, ip := CreateInode(disk, sb, bits, ROOT_MODE, uid, gid, now, 0);
    ok := num == ROOT_INODE && ret == 0;
    if Blank(sb, vol) && DeviceInode(dev) { RootCreated(sb, vol, uid, gid, now, dev, disk.Contents()); }
  }

  lemma RootCreated(sb: Super, vol: Volume, uid: u16, gid: u16, now: nat, dev: DInode, disk': Image)
    requires Blank(sb, vol) && DeviceInode(dev) && InRange(vol.disk, InodeAt(sb, 0), INODE_SIZE)
    requires disk' == Splice(vol.disk, InodeAt(sb, 0), PutInode(NewInode(ROOT_MODE, uid, gid, now)))
    ensures RootState(sb, Volume(disk', vol.zmap), NewInode(ROOT_MODE, uid, gid, now), dev, ROOT_TABLE[..0])
  {
    BlankRoot(sb, vol, NewInode(ROOT_MODE, uid, gid, now), dev, disk');
  }

  /** The first part of minix_mkfs() after the zero filling: the root directory with its two
      links. A failed assertion is reported as false. */
  method MakeRoot(disk: RamDisk, sb: Super, zmap: array<bv32>, bits: array<bv32>, uid: u16, gid: u16, now: nat,
                  ghost dev: DInode)
    returns (ok: bool, root: Inode)
    requires bits as object != disk.data && bits != zmap && ZoneMapOf(disk, sb, zmap) && FirstInUse(Bits(bits[..]), 0)
    modifies disk.data, zmap, bits
    ensures fresh(root) && |disk.Contents()| == |old(disk.Contents())|
    ensures ok ==> 4 <= sb.ninodes && FirstInUse(Bits(bits[..]), 1)
    ensures Blank(sb, old(VolumeOf(disk, zmap))) && DeviceInode(dev) ==>
      ok && RootState(sb, VolumeOf(disk, zmap), root.Value(), dev, ROOT_TABLE[..2])
  {
    var ip;
    ok, ip := CreateRoot(disk, sb, zmap, bits, uid, gid, now, dev);
    root := new Inode(ip);
    if !ok { return; }
    ghost var used := bits[..];
    ok := LinkRoot(disk, sb, zmap, root, dev);
    assert bits[..] == used;
  }

  /** The links of the root directory to itself. */
  method LinkRoot(disk: RamDisk, sb: Super, zmap: array<bv32>, root: Inode, ghost dev: DInode) returns (ok: bool)
    requires ZoneMapOf(disk, sb, zmap)
    modifies disk.data, zmap, root
    ensures |disk.Contents()| == |old(disk.Contents())|
    ensures
      && RootState(sb, old(VolumeOf(disk, zmap)), old(root.Value()), dev, ROOT_TABLE[..0])
      && Ready(sb, |old(disk.Contents())|) ==>
        ok && RootState(sb, VolumeOf(disk, zmap), root.Value(), dev, ROOT_TABLE[..2])
  {
    AddToRoot(disk, sb, zmap, root, DOT, ROOT_INODE, dev, 0);
    AddToRoot(disk, sb, zmap, root, DOTDOT, ROOT_INODE, dev, 1);
    ok := StoreInode(disk, sb, zmap, root.Value(), root.Value(), dev, ROOT_TABLE[..2]);
  }

  /** Writes the inode `ip` to slot 0 of the table. */
  method StoreInode(disk: RamDisk, sb: Super, zmap: array<bv32>, ip: DInode, ghost root: DInode, ghost dev: DInode, ghost t: Table)
    returns (ok: bool)
    requires ZoneMapOf(disk, sb, zmap)
    modifies disk.data
    ensures |disk.Contents()| == |old(disk.Contents())|
    ensures RootState(sb, old(VolumeOf(disk, zmap)), root, dev, t) && Ready(sb, |old(disk.Contents())|) ==>
      && ok && RootState(sb, VolumeOf(disk, zmap), root, dev, t)
      && InRange(old(disk.Contents()), InodeAt(sb, 0), INODE_SIZE)
      && disk.Contents() == Splice(old(disk.Contents()), InodeAt(sb, 0), PutInode(ip))
  {
    ghost var vol := VolumeOf(disk, zmap);
    var ret := InodeWrite(disk, sb, ip, ROOT_INODE);
    ok := ret == 0;
    if RootState(sb, vol, root, dev, t) && Ready(sb, |vol.disk|) {
      SlotWriteIsTableOnly(sb, vol.disk, ip, 0);
      RootStays(sb, vol, root, dev, t, disk.Contents());
    }
  }

  /** The table slots after the disk device was created: the inode of the device is first written
      over the root's slot, then the root is written there again. */
  lemma LastTwoWrites(sb: Super, disk: Image, root: DInode, dev: DInode, other: DInode)
    requires Ready(sb, |disk|) && InRange(disk, InodeAt(sb, 0), INODE_SIZE) && InRange(disk, InodeAt(sb, 1), INODE_SIZE)
    requires InodeIn(sb, disk, 1) == dev
    ensures TwoInodes(sb, Splice(Splice(disk, InodeAt(sb, 0), PutInode(other)), InodeAt(sb, 0), PutInode(root)), root, dev)
  {
    var d := Splice(disk, InodeAt(sb, 0), PutInode(other));
    InodeWriteRead(sb, disk, other, 0, 1);
    InodeWriteRead(sb, d, root, 0, 1);
    InodeWriteRead(sb, d, root, 0, 0);
  }

  /** The disk device's inode is in slot 1. */
  ghost predicate HasDevice(sb: Super, disk: Image, dev: DInode)
  {
    InRange(disk, InodeAt(sb, 1), INODE_SIZE) && InodeIn(sb, disk, 1) == dev
  }

  lemma DeviceStays(sb: Super, disk: Image, dev: DInode, disk': Image)
    requires Ready(sb, |disk|) && |disk'| == |disk| && HasDevice(sb, disk, dev)
    requires forall i: nat | i < |disk'| && i < sb.firstData as int * 1024 :: disk'[i] == disk[i]
    ensures HasDevice(sb, disk', dev)
  {
    InodeSlotPlace(sb, 1);
    SlotBelow(disk, disk', InodeAt(sb, 1), sb.firstData as int * 1024);
  }

  lemma SlotBelow(d: Image, d': Image, at: nat, hi: nat)
    requires |d'| == |d| && at + INODE_SIZE <= hi <= |d| && forall i: nat | i < |d'| && i < hi :: d'[i] == d[i]
    ensures d'[at..at + INODE_SIZE] == d[at..at + INODE_SIZE]
  {}

  /** Allocates the disk device's inode. */
  method CreateDevice(disk: RamDisk, sb: Super, zmap: array<bv32>, bits: array<bv32>, uid: u16, gid: u16, now: nat,
                      ghost root: DInode)
    returns (ok: bool, num: u16, winode: DInode)
    requires bits as object != disk.data && bits != zmap && ZoneMapOf(disk, sb, zmap) && FirstInUse(Bits(bits[..]), 1)
    modifies disk.data, bits
    ensures |disk.Contents()| == |old(disk.Contents())|
    ensures ok ==> FirstInUse(Bits(bits[..]), 2)
    ensures var dev := NewInode(DISK_MODE, uid, gid, now);
      RootState(sb, old(VolumeOf(disk, zmap)), root, dev, ROOT_TABLE[..2]) && Ready(sb, |old(disk.Contents())|) ==>
        && ok && num == 2 && winode == dev && RootState(sb, VolumeOf(disk, zmap), root, dev, ROOT_TABLE[..2])
        && HasDevice(sb, disk.Contents(), dev)
  {
    ghost var vol, dev := VolumeOf(disk, zmap), NewInode(DISK_MODE, uid, gid, now);
    var ret;
    num, ret, winode := CreateInode(disk, sb, bits, DISK_MODE, uid, gid, now, 1);
    ok := num != NULL_INODE && ret == 0;
    if RootState(sb, vol, root, dev, ROOT_TABLE[..2]) && Ready(sb, |vol.disk|) {
      DeviceWritten(sb, vol, root, dev, ROOT_TABLE[..2], disk.Contents());
    }
  }

  lemma DeviceWritten(sb: Super, vol: Volume, root: DInode, dev: DInode, t: Table, disk': Image)
    requires RootState(sb, vol, root, dev, t) && Ready(sb, |vol.disk|)
    requires InRange(vol.disk, InodeAt(sb, 1), INODE_SIZE) && disk' == Splice(vol.disk, InodeAt(sb, 1), PutInode(dev))
    ensures RootState(sb, Volume(disk', vol.zmap), root, dev, t) && HasDevice(sb, disk', dev)
  {
    SlotWriteIsTableOnly(sb, vol.disk, dev, 1);
    RootStays(sb, vol, root, dev, t, disk');
    InodeWriteRead(sb, vol.disk, dev, 1, 1);
  }

  /** Enters the disk device in the root directory. */
  method LinkDevice(disk: RamDisk, sb: Super, zmap: array<bv32>, root: Inode, num: u16, ghost dev: DInode)
    requires ZoneMapOf(disk, sb, zmap)
    modifies disk.data, zmap, root
    ensures |disk.Contents()| == |old(disk.Contents())|
    ensures
      && RootState(sb, old(VolumeOf(disk, zmap)), old(root.Value()), dev, ROOT_TABLE[..2]) && num == 2
      && Ready(sb, |old(disk.Contents())|) && HasDevice(sb, old(disk.Contents()), dev) ==>
        RootState(sb, VolumeOf(disk, zmap), root.Value(), dev, ROOT_TABLE) && HasDevice(sb, disk.Contents(), dev)
  {
    ghost var before, good := disk.Contents(), num == 2 && RootState(sb, VolumeOf(disk, zmap), root.Value(), dev, ROOT_TABLE[..2]);
    AddToRoot(disk, sb, zmap, root, DISK_NAME, num, dev, 2);
    assert ROOT_TABLE[..3] == ROOT_TABLE;
    if good && Ready(sb, |before|) && HasDevice(sb, before, dev) { DeviceStays(sb, before, dev, disk.Contents()); }
  }

  /** The second part of minix_mkfs(): the disk device. Its inode is meant to get the size of the
      disk, but the enlarged inode goes to the root's slot and is overwritten there. */
  method MakeDevice(disk: RamDisk, sb: Super, zmap: array<bv32>, bits: array<bv32>, uid: u16, gid: u16, now: nat,
                    root: Inode)
    returns (ok: bool)
    requires bits as object != disk.data && bits != zmap && ZoneMapOf(disk, sb, zmap) && FirstInUse(Bits(bits[..]), 1)
    modifies disk.data, zmap, bits, root
    ensures |disk.Contents()| == |old(disk.Contents())|
    ensures ok ==> FirstInUse(Bits(bits[..]), 2)
    ensures var dev := NewInode(DISK_MODE, uid, gid, now);
      RootState(sb, old(VolumeOf(disk, zmap)), old(root.Value()), dev, ROOT_TABLE[..2]) && Ready(sb, |old(disk.Contents())|) ==>
        && ok && RootState(sb, VolumeOf(disk, zmap), root.Value(), dev, ROOT_TABLE)
        && TwoInodes(sb, disk.Contents(), root.Value(), dev)
  {
    var num, winode;
    ok, num, winode := CreateDevice(disk, sb, zmap, bits, uid, gid, now, root.Value());
    if !ok { return; }
    ghost var dev, used := NewInode(DISK_MODE, uid, gid, now), bits[..];
    LinkDevice(disk, sb, zmap, root, num, dev);
    ok := StoreBoth(disk, sb, zmap, winode.(size := DISK_SIZE), root.Value(), dev);
    assert bits[..] == used;
  }

  method StoreBoth(disk: RamDisk, sb: Super, zmap: array<bv32>, winode: DInode, root: DInode, ghost dev: DInode)
    returns (ok: bool)
    requires ZoneMapOf(disk, sb, zmap)
    modifies disk.data
    ensures |disk.Contents()| == |old(disk.Contents())|
    ensures
      && RootState(sb, old(VolumeOf(disk, zmap)), root, dev, ROOT_TABLE) && Ready(sb, |old(disk.Contents())|)
      && HasDevice(sb, old(disk.Contents()), dev) ==>
        ok && RootState(sb, VolumeOf(disk, zmap), root, dev, ROOT_TABLE) && TwoInodes(sb, disk.Contents(), root, dev)
  {
    ghost var d := disk.Contents();
    if Ready(sb, |d|) && InRange(d, InodeAt(sb, 0), INODE_SIZE) && HasDevice(sb, d, dev) {
      LastTwoWrites(sb, d, root, dev, winode);
    }
    ok := StoreInode(disk, sb, zmap, winode, root, dev, ROOT_TABLE);
    if !ok { return; }
    ok := StoreInode(disk, sb, zmap, root, root, dev, ROOT_TABLE);
  }

  method ZeroMap(nblocks: u16) returns (a: array<bv32>)
    ensures fresh(a) && a.Length == 256 * nblocks as int
    ensures forall i: nat | i < |Bits(a[..])| :: !Bits(a[..])[i]
  {
    a := new bv32[256 * nblocks as int](_ => 0);
    forall i: nat | i < |Bits(a[..])| ensures !Bits(a[..])[i] { ZeroWord(i % 32); }
  }

  /** minix_mkfs(): false when one of its assertions fails. On every device that can hold the
      requested volume it leaves a mountable, sound file system with the initial root directory. */
  method Mkfs(disk: RamDisk, ninodes: u16, nblocks: u16, uid: u16, gid: u16, now: nat, later: nat) returns (ok: bool)
    modifies disk.data
    ensures ok ==> nblocks as int * 1024 <= |old(disk.Contents())| && 4 <= ninodes
    ensures Formattable(ninodes, nblocks, |old(disk.Contents())|) ==>
      ok && Formatted(disk.Contents(), FormatSuper(ninodes, nblocks))
  {
    ghost var size := |disk.Contents()|;
    ghost var good := Formattable(ninodes, nblocks, size);
    if good { FormattableFits(ninodes, nblocks, size); }
    var sb := FormatSuper(ninodes, nblocks);
    ok := ZeroFill(disk, nblocks);
    if !ok { return; }
    var bits := ZeroMap(sb.imapBlocks);
    var bmap := ZeroMap(sb.bmapBlocks);
    ok := Populate(disk, sb, bmap, bits, uid, gid, now, later);
    if !ok { return; }
    var ret := SuperWrite(disk, sb, bmap, bits);
    ok := ret == 0;
  }

  /** The inodes and the root directory, up to the final write of the superblock. */
  method Populate(disk: RamDisk, sb: Super, bmap: array<bv32>, bits: array<bv32>, uid: u16, gid: u16, now: nat, later: nat)
    returns (ok: bool)
    requires bits as object != disk.data && bits != bmap && ZoneMapOf(disk, sb, bmap) && FirstInUse(Bits(bits[..]), 0)
    modifies disk.data, bmap, bits
    ensures |disk.Contents()| == |old(disk.Contents())|
    ensures ok ==> 4 <= sb.ninodes
    ensures Blank(sb, old(VolumeOf(disk, bmap))) && MapsFit(sb, Bits(bmap[..]), Bits(bits[..])) ==>
      && ok && SuperStored(sb, disk.Contents(), Bits(bmap[..]), Bits(bits[..])).ret == 0
      && Formatted(SuperStored(sb, disk.Contents(), Bits(bmap[..]), Bits(bits[..])).disk, sb)
  {
    ghost var dev, good := NewInode(DISK_MODE, uid, gid, later), Blank(sb, VolumeOf(disk, bmap));
    var root;
    ok, root := MakeRoot(disk, sb, bmap, bits, uid, gid, now, dev);
    if !ok { return; }
    ok := MakeDevice(disk, sb, bmap, bits, uid, gid, later, root);
    if ok && good && MapsFit(sb, Bits(bmap[..]), Bits(bits[..])) {
      FormattedWhenSynced(sb, VolumeOf(disk, bmap), root.Value(), dev, Bits(bits[..]));
    }
  }

  /** Any run on a freshly formatted and mounted volume starts from the initial root directory
      and behaves as the abstract file system. */
  lemma {:induction false} FormattedRuns(disk: Image, sb: Super, ops: seq<Op>)
    requires Formatted(disk, sb)
    ensures var st := Files(Volume(disk, SuperLoaded(disk).zbits), [InodeIn(sb, disk, 0), InodeIn(sb, disk, 1)]);
      var r, a := RunOps(sb, st, ops), Fs(2, map[0 := ROOT_MAP], InodeTable(sb, disk));
      AbleAlong(sb, st, ops) ==>
        RunInv(sb, r.st) && AllCorrect(sb, a, ops, r.rets) && Abs(sb, r.st) == Replay(a, ops)
  {
    var st := Files(Volume(disk, SuperLoaded(disk).zbits), [InodeIn(sb, disk, 0), InodeIn(sb, disk, 1)]);
    if AbleAlong(sb, st, ops) { RunRefinesTree(sb, st, ops); }
  }

  /** On a freshly formatted volume with fewer than 8192 inodes, any run of inode allocations and frees
      is exact, starting with the inodes 1 and 2 in use; no search leaves the map. */
  lemma {:induction false} FormattedInodeRun(disk: Image, ninodes: u16, nblocks: u16, ops: seq<InodeOp>)
    requires Formatted(disk, FormatSuper(ninodes, nblocks)) && 4 <= ninodes < 8192
    ensures var sb, bits := FormatSuper(ninodes, nblocks), SuperLoaded(disk).ibits;
      var r := RunInodes(sb, disk, bits, ops);
      && |bits| == 8192 && |r.bits| == 8192 && Guarded(sb, r.bits) && Searchable(sb, r.bits)
      && FreshNumbers(sb, {1, 2}, ops, r.nums)
      && InUse(sb, r.bits) == ReplayInodes({1, 2}, ops, r.nums)
  {
    var sb, bits := FormatSuper(ninodes, nblocks), SuperLoaded(disk).ibits;
    LoadedSize(disk);
    assert Stop(sb, bits, ninodes);
    forall n: nat | n < sb.ninodes ensures InRange(disk, InodeAt(sb, n), INODE_SIZE) { InodeSlotPlace(sb, n); }
    TwoInUse(sb, bits);
    InodeRunExact(sb, disk, bits, ops);
    GuardedIsSearchable(sb, RunInodes(sb, disk, bits, ops).bits);
  }

  /** Any run of all operations on a freshly formatted and mounted volume with fewer than 8192 inodes,
      with files and directories coming and going, starts from the initial root directory and the
      numbers 1 and 2, and behaves as the abstract file system. */
  lemma {:induction false} FormattedFs(disk: Image, ninodes: u16, nblocks: u16, ops: seq<FsOp>)
    requires Formatted(disk, FormatSuper(ninodes, nblocks)) && 4 <= ninodes < 8192
    ensures var sb := FormatSuper(ninodes, nblocks); var s := Remounted(disk, [1, 2]);
      && FsOk(sb, s) && MapsFit(sb, s.st.vol.zmap, s.ibits)
      && AbsFs(sb, s) == World(Fs(2, map[0 := ROOT_MAP], InodeTable(sb, disk)), s.st.inodes, [1, 2], {1, 2})
      && Numbered(AbsFs(sb, s))
      && (AbleAll(sb, s, ops) ==>
            && FsOk(sb, RunAll(sb, s, ops).s)
            && CorrectAll(sb, AbsFs(sb, s), ops, RunAll(sb, s, ops).reports)
            && AbsFs(sb, RunAll(sb, s, ops).s) == ReplayAll(AbsFs(sb, s), ops, RunAll(sb, s, ops).reports))
  {
    var sb := FormatSuper(ninodes, nblocks);
    var s := Remounted(disk, [1, 2]);
    FreshIsOk(disk, ninodes, nblocks, s);
    if AbleAll(sb, s, ops) { RunRefinesFs(sb, s, ops); }
  }

  /** After any such run that frees no number of a file in memory, writing everything back, mounting the
      device and reading the inodes again gives the same file system. */
  lemma {:induction false} FormattedPersists(disk: Image, ninodes: u16, nblocks: u16, ops: seq<FsOp>)
    requires Formatted(disk, FormatSuper(ninodes, nblocks)) && 4 <= ninodes < 8192
    requires var sb, s := FormatSuper(ninodes, nblocks), Remounted(disk, [1, 2]);
      FsOk(sb, s) && AbleAll(sb, s, ops) && FreesClosed(AbsFs(sb, s), ops, RunAll(sb, s, ops).reports)
    ensures var sb := FormatSuper(ninodes, nblocks); var h := RunAll(sb, Remounted(disk, [1, 2]), ops).s;
      && FsOk(sb, h) && MapsFit(sb, h.st.vol.zmap, h.ibits) && SyncAll(sb, h).ret == 0
      && SuperLoaded(SyncAll(sb, h).disk) == Mounted(sb, h.st.vol.zmap, h.ibits)
      && var t := Remounted(SyncAll(sb, h).disk, h.nums);
         && FsOk(sb, t) && t.st.inodes == h.st.inodes && AbsFs(sb, t).used == AbsFs(sb, h).used
         && AbsFs(sb, t).fs.dirs == AbsFs(sb, h).fs.dirs
  {
    var sb, s := FormatSuper(ninodes, nblocks), Remounted(disk, [1, 2]);
    FreshIsOk(disk, ninodes, nblocks, s);
    RunRefinesFs(sb, s, ops);
    RunSizes(sb, s, ops);
    RunNumbered(sb, AbsFs(sb, s), ops, RunAll(sb, s, ops).reports);
    Persisted(sb, RunAll(sb, s, ops).s);
  }

  lemma Persisted(sb: Super, h: Vfs)
    requires FsOk(sb, h) && MapsFit(sb, h.st.vol.zmap, h.ibits) && 0 < sb.ninodes && Numbered(AbsFs(sb, h))
    ensures SyncAll(sb, h).ret == 0 && SuperLoaded(SyncAll(sb, h).disk) == Mounted(sb, h.st.vol.zmap, h.ibits)
    ensures var t := Remounted(SyncAll(sb, h).disk, h.nums);
      && FsOk(sb, t) && t.st.inodes == h.st.inodes && AbsFs(sb, t).used == AbsFs(sb, h).used
      && AbsFs(sb, t).fs.dirs == AbsFs(sb, h).fs.dirs
  {
    NumberedPersists(AbsFs(sb, h));
    PersistsIff(sb, h);
  }

  lemma FreshIsOk(disk: Image, ninodes: u16, nblocks: u16, s: Vfs)
    requires Formatted(disk, FormatSuper(ninodes, nblocks)) && 4 <= ninodes < 8192
    requires s == Remounted(disk, [1, 2])
    ensures var sb := FormatSuper(ninodes, nblocks);
      && FsOk(sb, s) && MapsFit(sb, s.st.vol.zmap, s.ibits)
      && AbsFs(sb, s) == World(Fs(2, map[0 := ROOT_MAP], InodeTable(sb, disk)), s.st.inodes, [1, 2], {1, 2})
      && Numbered(AbsFs(sb, s))
  {
    var sb := FormatSuper(ninodes, nblocks);
    FreshMaps(disk, ninodes, nblocks, s);
    FreshFiles(disk, sb, s);
  }

  lemma FreshFiles(disk: Image, sb: Super, s: Vfs)
    requires Formatted(disk, sb) && s == Remounted(disk, [1, 2])
    ensures RunInv(sb, s.st) && Abs(sb, s.st) == Fs(2, map[0 := ROOT_MAP], InodeTable(sb, disk)) && |s.st.inodes| == 2
  {
    assert s.st.inodes == [InodeIn(sb, disk, 0), InodeIn(sb, disk, 1)];
  }

  lemma FreshMaps(disk: Image, ninodes: u16, nblocks: u16, s: Vfs)
    requires Formatted(disk, FormatSuper(ninodes, nblocks)) && 4 <= ninodes < 8192 && s == Remounted(disk, [1, 2])
    ensures var sb := FormatSuper(ninodes, nblocks);
      && Guarded(sb, s.ibits) && InUse(sb, s.ibits) == {1, 2} && MapsFit(sb, s.st.vol.zmap, s.ibits)
  {
    var sb := FormatSuper(ninodes, nblocks);
    LoadedSize(disk);
    assert Stop(sb, s.ibits, ninodes);
    TwoInUse(sb, s.ibits);
  }

  lemma TwoInUse(sb: Super, bits: Bitmap)
    requires 4 <= sb.ninodes && sb.ninodes as int <= |bits| && forall i: nat | i < |bits| :: bits[i] <==> i < 2
    ensures InUse(sb, bits) == {1, 2}
  {
    assert forall n: nat :: Taken(sb, bits, n) <==> n == 1 || n == 2;
  }

  lemma LoadedSize(disk: Image)
    requires SuperLoaded(disk).Mounted?
    ensures |SuperLoaded(disk).ibits| == 8192 * SuperLoaded(disk).sb.imapBlocks as int
    ensures |SuperLoaded(disk).zbits| == 8192 * SuperLoaded(disk).sb.bmapBlocks as int
  {}
}
