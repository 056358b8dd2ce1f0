/**
  The volume as a whole: its layout, the inode table (src/sys/fs/vfs/minix/inode.c), the
  superblock and the two maps (src/sys/fs/vfs/minix/super.c).
 */
module MinixVolume {
  import opened Disk
  import opened MinixFormat
  import opened Bitmaps
  import opened SlotTable
  import opened MinixBlocks
  import opened MinixDir
  import opened MinixDriver

  // ----- layout

  const MAX_FILE_SIZE := 64 * 1024 * 1024

  /** ROUND(): at least one block. */
  function AtLeastOne(x: nat): nat { if x == 0 then 1 else x }

  /** The superblock that minix_mkfs() computes. */
  function FormatSuper(ninodes: u16, nblocks: u16): Super
  {
    var im := AtLeastOne(ninodes / 8192);
    var zm := AtLeastOne(nblocks / 8192);
    var inodes := AtLeastOne(ninodes as int * 32 / 1024);
    Super(ninodes, nblocks, im, zm, 2 + im + zm + inodes, 0, MAX_FILE_SIZE, MAGIC)
  }

  /** The parts of a volume. */
  datatype Part = SuperBlock | InodeMap | ZoneMap | InodeSlot(n: nat) | DataBlock(b: nat)

  predicate IsPart(sb: Super, p: Part)
  {
    match p
    case InodeSlot(n) => n < sb.ninodes
    case DataBlock(b) => sb.firstData <= b < sb.nblocks
    case _ => true
  }

  function Start(sb: Super, p: Part): nat
  {
    match p
    case SuperBlock => 1024
    case InodeMap => 2048
    case ZoneMap => (2 + sb.imapBlocks as int) * 1024
    case InodeSlot(n) => InodeAt(sb, n)
    case DataBlock(b) => b * 1024
  }

  function Size(sb: Super, p: Part): nat
  {
    match p
    case SuperBlock => SUPER_SIZE
    case InodeMap => sb.imapBlocks as int * 1024
    case ZoneMap => sb.bmapBlocks as int * 1024
    case InodeSlot(n) => INODE_SIZE
    case DataBlock(b) => BLOCK
  }

  predicate Apart(sb: Super, p: Part, q: Part)
  {
    Start(sb, p) + Size(sb, p) <= Start(sb, q) || Start(sb, q) + Size(sb, q) <= Start(sb, p)
  }

  /** All parts occupy pairwise disjoint bytes. */
  ghost predicate Disjoint(sb: Super)
  {
    forall p: Part, q: Part | IsPart(sb, p) && IsPart(sb, q) && p != q :: Apart(sb, p, q)
  }

  lemma PartsApart(sb: Super, p: Part, q: Part)
    requires InodesFit(sb) && IsPart(sb, p) && IsPart(sb, q) && p != q
    ensures Apart(sb, p, q)
  {
    if p.InodeSlot? { InodeSlotPlace(sb, p.n); }
    if q.InodeSlot? { InodeSlotPlace(sb, q.n); }
    if p.InodeSlot? && q.InodeSlot? { SlotsApart(p.n, q.n); }
  }

  /** minix_mkfs() rounds the inode table down: its layout is free of overlaps exactly when the
      number of inodes is a multiple of 32 or fits in a single block. */
  lemma DisjointIff(ninodes: u16, nblocks: u16)
    requires FormatSuper(ninodes, nblocks).firstData < nblocks
    ensures Disjoint(FormatSuper(ninodes, nblocks)) <==> ninodes <= 32 || ninodes % 32 == 0
  {
    var sb := FormatSuper(ninodes, nblocks);
    InodesFitIff(ninodes, nblocks);
    if InodesFit(sb) {
      forall p: Part, q: Part | IsPart(sb, p) && IsPart(sb, q) && p != q ensures Apart(sb, p, q) {
        PartsApart(sb, p, q);
      }
    } else {
      var p, q := InodeSlot(ninodes - 1), DataBlock(sb.firstData);
      assert IsPart(sb, p) && IsPart(sb, q) && !Apart(sb, p, q);
    }
  }

  lemma InodesFitIff(ninodes: u16, nblocks: u16)
    ensures InodesFit(FormatSuper(ninodes, nblocks)) <==> ninodes <= 32 || ninodes % 32 == 0
  {}

  // ----- inodes

  /** `num--` on a 16-bit number: null wraps around to a number that is out of range. */
  function Previous(num: u16): u16 { if num == 0 then 0xffff else num - 1 }

  /** minix_inode_read(): the inode is meaningful only when 0 is returned. */
  method InodeRead(disk: RamDisk, sb: Super, num: u16) returns (ret: int, ip: DInode)
    ensures ret == 0 <==> sb.magic == MAGIC && 0 < num <= sb.ninodes && InRange(disk.Contents(), InodeAt(sb, num - 1), INODE_SIZE)
    ensures ret == 0 ==> ip == InodeIn(sb, disk.Contents(), num - 1)
    ensures ret != 0 ==> ret == EINVAL || ret == EAGAIN
  {
    ip := DInode(0, 0, 0, 0, 0, 0, [0, 0, 0, 0, 0, 0, 0, 0, 0]);
    if sb.magic != MAGIC { return EINVAL, ip; }
    var n := Previous(num);
    if n >= sb.ninodes { return EINVAL, ip; }
    var got, bytes := disk.Read(0, INODE_SIZE, InodeAt(sb, n));
    if got < 0 { return EAGAIN, ip; }
    return 0, GetInode(bytes);
  }

  datatype Written = Written(disk: Image, ret: int)

  /** What minix_inode_write() does to the device. */
  function InodeWritten(sb: Super, disk: Image, ip: DInode, num: u16): Written
  {
    if sb.magic != MAGIC || num == 0 || num > sb.ninodes then Written(disk, EINVAL)
    else if !InRange(disk, InodeAt(sb, num - 1), INODE_SIZE) then Written(disk, EAGAIN)
    else Written(Splice(disk, InodeAt(sb, num - 1), PutInode(ip)), 0)
  }

  /** minix_inode_write(). */
  method InodeWrite(disk: RamDisk, sb: Super, ip: DInode, num: u16) returns (ret: int)
    modifies disk.data
    ensures ret == 0 <==>
      sb.magic == MAGIC && 0 < num <= sb.ninodes && InRange(old(disk.Contents()), InodeAt(sb, num - 1), INODE_SIZE)
    ensures ret == 0 ==> disk.Contents() == Splice(old(disk.Contents()), InodeAt(sb, num - 1), PutInode(ip))
    ensures ret != 0 ==> disk.Contents() == old(disk.Contents()) && (ret == EINVAL || ret == EAGAIN)
    ensures Written(disk.Contents(), ret) == InodeWritten(sb, old(disk.Contents()), ip, num)
  {
    if sb.magic != MAGIC { return EINVAL; }
    var n := Previous(num);
    if n >= sb.ninodes { return EINVAL; }
    var put := disk.Write(0, PutInode(ip), InodeAt(sb, n));
    if put < 0 { return EAGAIN; }
    return 0;
  }

  /** The entry under a used slot carries the slot's inode number. */
  lemma FoundIno(disk: Image, ip: DInode, k: nat)
    requires HoleFree(disk, ip) && (k < Length(ip) ==> Entries(disk, ip)[k].Used?)
    ensures k < Length(ip) ==>
      && Present(disk, ip, k)
      && GetDirent(disk[EntryAt(disk, ip, k)..EntryAt(disk, ip, k) + DIRENT_SIZE]).ino == Entries(disk, ip)[k].value
  {
    if k < Length(ip) { assert Present(disk, ip, k); }
  }

  /** minix_dirent_remove(). */
  method DirentRemove(disk: RamDisk, sb: Super, zmap: array<bv32>, dip: Inode, name: CString) returns (r: Ret)
    requires ZoneMapOf(disk, sb, zmap)
    modifies disk.data, zmap, dip
    ensures var vol, ip := old(VolumeOf(disk, zmap)), old(dip.Value());
      !IsDir(ip.mode) || |name| > NAME_MAX || name == DOT || Scannable(sb, vol, ip) ==>
        DirResult(VolumeOf(disk, zmap), dip.Value(), r) == Removed(sb, vol, ip, name)
  {
    ghost var vol, ip := VolumeOf(disk, zmap), dip.Value();
    if !IsDir(dip.mode) { return Code(EINVAL); }
    if |name| > NAME_MAX { return Code(ENAMETOOLONG); }
    if name == DOT { return Code(EBUSY); }
    if Scannable(sb, vol, ip) { RemovedFrom(sb, vol, ip, name); }
    r := RemoveFound(disk, sb, zmap, dip, name);
  }

  /** minix_dirent_remove() after its argument checks. */
  method RemoveFound(disk: RamDisk, sb: Super, zmap: array<bv32>, dip: Inode, name: CString) returns (r: Ret)
    requires ZoneMapOf(disk, sb, zmap) && |name| <= NAME_MAX
    modifies disk.data, zmap, dip
    ensures var vol, ip := old(VolumeOf(disk, zmap)), old(dip.Value());
      Scannable(sb, vol, ip) ==>
        DirResult(VolumeOf(disk, zmap), dip.Value(), r) == AfterRemoveSearch(sb, SearchSpec(sb, vol, ip, name, false))
  {
    var s := DirentSearch(disk, sb, zmap, dip, name, false);
    match s {
      case Crashed => return Crash;
      case Failed(_) => return Code(ENOENT);
      case At(off) => r := UnlinkAt(disk, sb, off);
    }
  }

  /** What minix_dirent_remove() makes of the outcome of its search. */
  ghost function AfterRemoveSearch(sb: Super, s: Searched): DirResult
  {
    match s.result
    case Crashed => DirResult(s.vol, s.ip, Crash)
    case Failed(_) => DirResult(s.vol, s.ip, Code(ENOENT))
    case At(off) =>
      var u := UnlinkAtSpec(sb, s.vol.disk, off);
      DirResult(s.vol.(disk := u.disk), s.ip, u.ret)
  }

  ghost function UnlinkAtSpec(sb: Super, disk: Image, off: int): Tail
  {
    if InRange(disk, off, DIRENT_SIZE) then UnlinkTail(sb, disk, GetDirent(disk[off..off + DIRENT_SIZE]).ino, off)
    else Tail(disk, Crash)
  }

  /** What is left to do once minix_dirent_remove() has found the entry. */
  method UnlinkAt(disk: RamDisk, sb: Super, off: int) returns (r: Ret)
    modifies disk.data
    ensures Tail(disk.Contents(), r) == UnlinkAtSpec(sb, old(disk.Contents()), off)
  {
    var n, bytes := disk.Read(0, DIRENT_SIZE, off);
    if n != DIRENT_SIZE { return Crash; }
    r := Unlink(disk, sb, off, GetDirent(bytes).ino);
  }

  /** minix_dirent_remove() in terms of the search. */
  lemma RemovedFrom(sb: Super, vol: Volume, ip: DInode, name: CString)
    requires HoleFree(vol.disk, ip) && IsDir(ip.mode) && |name| <= NAME_MAX && name != DOT
    ensures Removed(sb, vol, ip, name) == AfterRemoveSearch(sb, SearchSpec(sb, vol, ip, name, false))
  {
    var t := Entries(vol.disk, ip);
    var k := Find(t, name);
    RemovedSplits(sb, vol, ip, name);
    FoundIno(vol.disk, ip, k);
    if k < |t| {
      var at: int := EntryAt(vol.disk, ip, k);
      PlaceInRange(vol.disk, Ref(vol.disk, ip, k / 64), k);
      assert SearchSpec(sb, vol, ip, name, false).result == At(at);
    }
  }

  lemma PlaceInRange(disk: Image, b: int, k: nat)
    requires 0 <= b && (b + 1) * 1024 <= |disk|
    ensures InRange(disk, Place(b, k), DIRENT_SIZE)
  {}

  /** The second half of minix_dirent_remove(): drop one link of the target, clear the entry. */
  method Unlink(disk: RamDisk, sb: Super, off: int, ino: u16) returns (r: Ret)
    requires InRange(disk.Contents(), off, DIRENT_SIZE)
    modifies disk.data
    ensures Tail(disk.Contents(), r) == UnlinkTail(sb, old(disk.Contents()), ino, off)
  {
    var ret, target := InodeRead(disk, sb, ino);
    if ret < 0 { return Code(ENOENT); }
    if IsDir(target.mode) && target.size > 0 { return Code(EBUSY); }
    ret := InodeWrite(disk, sb, OneLinkFewer(target), ino);
    if ret < 0 { return Code(EAGAIN); }
    var w := disk.Write(0, PutDirent(DeadEntry()), off);
    return Code(0);
  }

  // ----- the inode allocator

  datatype InodeAlloc = InodeAlloc(disk: Image, bits: Bitmap, num: u16)

  /** The memory that the search of bitmap_first_free() inspects exists: `bits` is the memory from
      the start of the inode map on, the map itself or more. */
  predicate Searchable(sb: Super, bits: Bitmap)
  {
    SearchLength(sb) <= |bits| || LeastClear(bits) < |bits|
  }

  /** The low 16 bits of a number. */
  function Low16(x: nat): u16 { if x < 0x1_0000 then x else x % 0x1_0000 }

  /** minix_inode_alloc(): the search length is `s_ninodes` bytes, although it counts inodes; a
      number beyond the table fails in minix_inode_write() and its bit is cleared again. */
  function InodeAllocated(sb: Super, disk: Image, bits: Bitmap, ip: DInode): InodeAlloc
  {
    var bit := LeastClear(bits);
    if sb.magic != MAGIC || bit == |bits| || bit >= SearchLength(sb) then InodeAlloc(disk, bits, NULL_INODE)
    else Installed(sb, disk, bits, bit, ip)
  }

  /** The inode of bit `bit` is marked and written; a failing write is rolled back. */
  function Installed(sb: Super, disk: Image, bits: Bitmap, bit: nat, ip: DInode): InodeAlloc
    requires bit < |bits|
  {
    var num := Low16(bit + 1);
    if num == 0 || num > sb.ninodes || !InRange(disk, InodeAt(sb, num - 1), INODE_SIZE)
    then InodeAlloc(disk, bits[bit := false], NULL_INODE)
    else InodeAlloc(Splice(disk, InodeAt(sb, num - 1), PutInode(ip)), bits[bit := true], num)
  }

  /** How many bits minix_inode_alloc() is ready to inspect. */
  function SearchLength(sb: Super): nat { 32 * (sb.ninodes as int / 4) }

  /** There is a bit for every inode, and the search ends before bit numbers exceed 16 bits: it is
      short enough, or the memory holds a clear bit that belongs to no inode. */
  ghost predicate Guarded(sb: Super, bits: Bitmap)
  {
    && sb.ninodes <= |bits|
    && ((SearchLength(sb) <= |bits| && SearchLength(sb) <= 0x1_0000) || exists i: nat :: Stop(sb, bits, i))
  }

  predicate Stop(sb: Super, bits: Bitmap, i: nat)
  {
    sb.ninodes <= i < |bits| && i < 0x1_0000 && !bits[i]
  }

  predicate Number(sb: Super, n: nat) { 1 <= n <= sb.ninodes }

  predicate Taken(sb: Super, bits: Bitmap, n: nat)
    requires sb.ninodes <= |bits|
  {
    Number(sb, n) && bits[n - 1]
  }

  /** The inode numbers in use. */
  ghost function InUse(sb: Super, bits: Bitmap): set<nat>
    requires sb.ninodes <= |bits|
  {
    set n: nat | n <= 0x1_0000 && Taken(sb, bits, n)
  }

  ghost function AllNumbers(sb: Super): set<nat>
  {
    set n: nat | n <= 0x1_0000 && Number(sb, n)
  }

  ghost predicate TableOnDevice(sb: Super, disk: Image)
  {
    forall n: nat | n < sb.ninodes :: InRange(disk, InodeAt(sb, n), INODE_SIZE)
  }

  /** The allocator is exact: it hands out a number in 1..ninodes that was not in use, writes that
      inode and no other, and fails, leaving everything as it was, exactly when all numbers are in
      use or there are fewer than four inodes. */
  lemma InodeAllocExact(sb: Super, disk: Image, bits: Bitmap, ip: DInode)
    requires sb.magic == MAGIC && Guarded(sb, bits) && TableOnDevice(sb, disk)
    ensures var r := InodeAllocated(sb, disk, bits, ip);
      && (r.num == NULL_INODE <==> sb.ninodes < 4 || InUse(sb, bits) == AllNumbers(sb))
      && (r.num == NULL_INODE ==> r.bits == bits && r.disk == disk)
      && (r.num != NULL_INODE ==>
            && 1 <= r.num <= sb.ninodes && r.num !in InUse(sb, bits)
            && r.bits == bits[r.num - 1 := true] && InUse(sb, r.bits) == InUse(sb, bits) + {r.num as nat}
            && r.disk == Splice(disk, InodeAt(sb, r.num - 1), PutInode(ip)))
  {
    var bit := LeastClear(bits);
    InodeAllocCases(sb, disk, bits, ip);
    if bit < sb.ninodes {
      assert bit + 1 in AllNumbers(sb) && bit + 1 !in InUse(sb, bits);
      InUseAdd(sb, bits, bit);
    } else {
      assert InUse(sb, bits) == AllNumbers(sb);
    }
  }

  lemma InodeAllocCases(sb: Super, disk: Image, bits: Bitmap, ip: DInode)
    requires sb.magic == MAGIC && Guarded(sb, bits) && TableOnDevice(sb, disk)
    ensures var r, bit := InodeAllocated(sb, disk, bits, ip), LeastClear(bits);
      if 4 <= sb.ninodes && bit < sb.ninodes then
        && InRange(disk, InodeAt(sb, bit), INODE_SIZE)
        && r == InodeAlloc(Splice(disk, InodeAt(sb, bit), PutInode(ip)), bits[bit := true], bit + 1)
      else r == InodeAlloc(disk, bits, NULL_INODE)
  {
    var bit := LeastClear(bits);
    assert bit < |bits| ==> bits[bit := false] == bits;
    if i: nat :| Stop(sb, bits, i) { assert bit <= i; }
    if bit < sb.ninodes {
      assert sb.ninodes >= 4 ==> bit < SearchLength(sb);
      assert InRange(disk, InodeAt(sb, bit), INODE_SIZE);
    }
  }

  lemma InUseAdd(sb: Super, bits: Bitmap, bit: nat)
    requires sb.ninodes <= |bits| && bit < sb.ninodes
    ensures InUse(sb, bits[bit := true]) == InUse(sb, bits) + {bit + 1}
  {}

  lemma InodeAllocKeeps(sb: Super, disk: Image, bits: Bitmap, ip: DInode)
    requires sb.magic == MAGIC && Guarded(sb, bits) && TableOnDevice(sb, disk)
    ensures var r := InodeAllocated(sb, disk, bits, ip); |r.bits| == |bits| && Guarded(sb, r.bits) && TableOnDevice(sb, r.disk)
  {
    var r, bit := InodeAllocated(sb, disk, bits, ip), LeastClear(bits);
    InodeAllocCases(sb, disk, bits, ip);
    assert forall n: nat | n < sb.ninodes :: InRange(disk, InodeAt(sb, n), INODE_SIZE);
    if i: nat :| Stop(sb, bits, i) { assert Stop(sb, r.bits, i); }
  }

  lemma GuardedIsSearchable(sb: Super, bits: Bitmap)
    requires Guarded(sb, bits)
    ensures Searchable(sb, bits)
  {
    if i: nat :| Stop(sb, bits, i) {}
  }

  // ----- the size of the inode map

  /** No bit beyond the last inode is set. */
  ghost predicate ClearBeyond(sb: Super, bits: Bitmap)
  {
    forall i: nat | sb.ninodes <= i < |bits| :: !bits[i]
  }

  ghost predicate AlwaysInside(sb: Super, size: nat)
  {
    forall bits: Bitmap | |bits| == size && ClearBeyond(sb, bits) :: Searchable(sb, bits)
  }

  /** Whatever inodes are in use, the search stays inside a map of `size` bits exactly when the map
      has more bits than there are inodes. */
  lemma SearchInsideIff(sb: Super, size: nat)
    requires 4 <= sb.ninodes
    ensures AlwaysInside(sb, size) <==> sb.ninodes < size
  {
    if sb.ninodes < size {
      forall bits: Bitmap | |bits| == size && ClearBeyond(sb, bits) ensures Searchable(sb, bits) {
        assert !bits[sb.ninodes];
      }
    } else {
      var full: Bitmap := seq(size, _ => true);
      FullIsSearchedThrough(sb, full);
    }
  }

  /** A full map that is no longer than the inodes are many is searched beyond its end. */
  lemma FullIsSearchedThrough(sb: Super, full: Bitmap)
    requires 4 <= sb.ninodes && |full| <= sb.ninodes && FullBelow(full, |full|)
    ensures ClearBeyond(sb, full) && !Searchable(sb, full)
  {
    assert LeastClear(full) == |full|;
  }

  /** minix_mkfs() rounds the inode map down: the search can never leave a formatted map exactly when
      there are fewer inodes than one block has bits. */
  lemma FormattedSearchIff(ninodes: u16, nblocks: u16)
    requires 4 <= ninodes
    ensures var sb := FormatSuper(ninodes, nblocks);
      AlwaysInside(sb, 8192 * sb.imapBlocks as int) <==> ninodes < 8192
  {
    SearchInsideIff(FormatSuper(ninodes, nblocks), 8192 * FormatSuper(ninodes, nblocks).imapBlocks as int);
  }

  /** With 8192 inodes, all in use, the layout is free of overlaps and yet the next allocation reads
      beyond the map. */
  lemma Overrun8192(nblocks: u16, full: Bitmap)
    requires |full| == 8192 && FullBelow(full, 8192)
    ensures var sb := FormatSuper(8192, nblocks);
      InodesFit(sb) && |full| == 8192 * sb.imapBlocks as int && !Searchable(sb, full)
  {
    FullIsSearchedThrough(FormatSuper(8192, nblocks), full);
  }

  /** An allocation is recorded in the map of `size` bits exactly when its number is within the map;
      otherwise it sets a bit of the memory behind the map. */
  lemma RecordedIff(sb: Super, disk: Image, bits: Bitmap, ip: DInode, size: nat)
    requires sb.magic == MAGIC && Guarded(sb, bits) && TableOnDevice(sb, disk) && size <= |bits|
    ensures var r := InodeAllocated(sb, disk, bits, ip);
      r.num != NULL_INODE ==> |r.bits| == |bits| && (r.bits[..size] == bits[..size] <==> r.num > size)
  {
    var r := InodeAllocated(sb, disk, bits, ip);
    InodeAllocCases(sb, disk, bits, ip);
    if 0 < r.num <= size { assert r.bits[..size][r.num - 1] != bits[..size][r.num - 1]; }
  }

  /** Every number has its bit in a formatted map exactly when the inodes fit in one block of the map
      or are a multiple of its bits. */
  lemma FormattedNumbersIff(ninodes: u16, nblocks: u16)
    ensures var sb := FormatSuper(ninodes, nblocks);
      (forall n: nat | Number(sb, n) :: n <= 8192 * sb.imapBlocks as int) <==> ninodes <= 8192 || ninodes % 8192 == 0
  {
    var sb := FormatSuper(ninodes, nblocks);
    assert ninodes > 0 ==> Number(sb, ninodes);
  }

  /** When the search runs so far beyond the map that the bit number exceeds 16 bits, the number handed
      out is one that is in use. */
  lemma NumberReused(sb: Super, disk: Image, bits: Bitmap, ip: DInode)
    requires sb.magic == MAGIC && sb.ninodes <= |bits| && TableOnDevice(sb, disk)
    requires 0x1_0000 <= LeastClear(bits) < |bits| && LeastClear(bits) < SearchLength(sb)
    requires Number(sb, (LeastClear(bits) + 1) % 0x1_0000)
    ensures var r := InodeAllocated(sb, disk, bits, ip);
      r.num == (LeastClear(bits) + 1) % 0x1_0000 && r.num in InUse(sb, bits)
  {
    var n := (LeastClear(bits) + 1) % 0x1_0000;
    assert InRange(disk, InodeAt(sb, n - 1), INODE_SIZE);
    assert bits[n - 1];
  }

  /** With 8224 inodes and a full map, number 8193 is handed out although the map cannot record it. */
  lemma Unrecorded8224(nblocks: u16, disk: Image, bits: Bitmap, ip: DInode)
    requires var sb := FormatSuper(8224, nblocks); Guarded(sb, bits) && TableOnDevice(sb, disk)
    requires FullBelow(bits, 8192) && !bits[8192]
    ensures var sb := FormatSuper(8224, nblocks); var r := InodeAllocated(sb, disk, bits, ip);
      && InodesFit(sb) && 8192 * sb.imapBlocks as int == 8192
      && r.num == 8193 && |r.bits| == |bits| && r.bits[..8192] == bits[..8192]
  {
    var sb := FormatSuper(8224, nblocks);
    LeastClearIs(bits, 8192);
    InodeAllocCases(sb, disk, bits, ip);
    RecordedIff(sb, disk, bits, ip, 8192);
  }

  /** minix_inode_free(): the bit of a number that the memory `bits` does not reach lies behind it. */
  function InodeFreed(sb: Super, bits: Bitmap, num: u16): Freed
  {
    if sb.magic != MAGIC || num == 0 || num > sb.ninodes then Freed(bits, false)
    else Freed(if num <= |bits| then bits[num - 1 := false] else bits, true)
  }

  lemma InodeFreeExact(sb: Super, bits: Bitmap, num: u16)
    requires sb.magic == MAGIC && Guarded(sb, bits)
    ensures var r := InodeFreed(sb, bits, num);
      && |r.zmap| == |bits| && Guarded(sb, r.zmap)
      && (r.ok <==> num in AllNumbers(sb))
      && InUse(sb, r.zmap) == InUse(sb, bits) - (if r.ok then {num as nat} else {})
  {
    var r := InodeFreed(sb, bits, num);
    if r.ok { assert !r.zmap[num - 1]; }
    if i: nat :| Stop(sb, bits, i) { assert Stop(sb, r.zmap, i); }
  }

  // ----- runs of the inode allocator

  datatype InodeOp = AllocInode(ip: DInode) | FreeInode(num: u16)

  datatype InodeRun = InodeRun(disk: Image, bits: Bitmap, nums: seq<u16>)

  /** The inode numbers reported along a run (0 for a failed allocation and for every free). */
  function RunInodes(sb: Super, disk: Image, bits: Bitmap, ops: seq<InodeOp>): (r: InodeRun)
    ensures |r.nums| == |ops|
    decreases |ops|
  {
    if ops == [] then InodeRun(disk, bits, [])
    else
      match ops[0]
      case AllocInode(ip) =>
        var a := InodeAllocated(sb, disk, bits, ip);
        var r := RunInodes(sb, a.disk, a.bits, ops[1..]);
        InodeRun(r.disk, r.bits, [a.num] + r.nums)
      case FreeInode(num) =>
        var r := RunInodes(sb, disk, InodeFreed(sb, bits, num).zmap, ops[1..]);
        InodeRun(r.disk, r.bits, [0] + r.nums)
  }

  /** The set of numbers in use after a run that reported `nums`. */
  ghost function ReplayInodes(live: set<nat>, ops: seq<InodeOp>, nums: seq<u16>): set<nat>
    requires |nums| == |ops|
    decreases |ops|
  {
    if ops == [] then live
    else
      var next := match ops[0]
        case AllocInode(_) => if nums[0] == 0 then live else live + {nums[0] as nat}
        case FreeInode(num) => live - {num as nat};
      ReplayInodes(next, ops[1..], nums[1..])
  }

  /** Every report is right: a fresh number of the table, or 0 only when none is left. */
  ghost predicate FreshNumbers(sb: Super, live: set<nat>, ops: seq<InodeOp>, nums: seq<u16>)
    requires |nums| == |ops|
    decreases |ops|
  {
    ops != [] ==>
      match ops[0]
      case AllocInode(_) =>
        && (if nums[0] == 0 then live == AllNumbers(sb) else nums[0] in AllNumbers(sb) - live)
        && FreshNumbers(sb, if nums[0] == 0 then live else live + {nums[0] as nat}, ops[1..], nums[1..])
      case FreeInode(num) =>
        FreshNumbers(sb, live - {num as nat}, ops[1..], nums[1..])
  }

  /** Over any run of allocations and frees the allocator behaves as a set of numbers. */
  lemma {:induction false} InodeRunExact(sb: Super, disk: Image, bits: Bitmap, ops: seq<InodeOp>)
    requires sb.magic == MAGIC && 4 <= sb.ninodes && Guarded(sb, bits) && TableOnDevice(sb, disk)
    ensures var r := RunInodes(sb, disk, bits, ops);
      && |r.bits| == |bits| && Guarded(sb, r.bits)
      && FreshNumbers(sb, InUse(sb, bits), ops, r.nums)
      && InUse(sb, r.bits) == ReplayInodes(InUse(sb, bits), ops, r.nums)
    decreases |ops|
  {
    if ops != [] {
      match ops[0] {
        case AllocInode(ip) =>
          var a := InodeAllocated(sb, disk, bits, ip);
          InodeAllocExact(sb, disk, bits, ip);
          InodeAllocKeeps(sb, disk, bits, ip);
          InodeRunExact(sb, a.disk, a.bits, ops[1..]);
          assert RunInodes(sb, disk, bits, ops).nums[1..] == RunInodes(sb, a.disk, a.bits, ops[1..]).nums;
        case FreeInode(num) =>
          var fr := InodeFreed(sb, bits, num);
          InodeFreeExact(sb, bits, num);
          InodeRunExact(sb, disk, fr.zmap, ops[1..]);
          assert RunInodes(sb, disk, bits, ops).nums[1..] == RunInodes(sb, disk, fr.zmap, ops[1..]).nums;
          assert InUse(sb, fr.zmap) == InUse(sb, bits) - {num as nat};
      }
    }
  }

  /** The inode that minix_inode_alloc() initialises at time `now`. */
  function NewInode(mode: u16, uid: u16, gid: u16, now: nat): DInode
  {
    DInode(mode, uid, 0, now % 0x1_0000_0000, gid % 256, 1, [0, 0, 0, 0, 0, 0, 0, 0, 0])
  }

  /** minix_inode_alloc(). */
  method AllocateInode(disk: RamDisk, sb: Super, bits: array<bv32>, mode: u16, uid: u16, gid: u16, now: nat)
    returns (num: u16)
    requires bits as object != disk.data && Searchable(sb, Bits(bits[..]))
    modifies disk.data, bits
    ensures InodeAlloc(disk.Contents(), Bits(bits[..]), num)
         == InodeAllocated(sb, old(disk.Contents()), old(Bits(bits[..])), NewInode(mode, uid, gid, now))
  {
    if sb.magic != MAGIC { return NULL_INODE; }
    var bit := FindFreeInode(sb, bits);
    if bit == FULL { return NULL_INODE; }
    num := InstallInode(disk, sb, bits, bit, NewInode(mode, uid, gid, now));
  }

  /** The second half of minix_inode_alloc(). */
  method InstallInode(disk: RamDisk, sb: Super, bits: array<bv32>, bit: nat, ip: DInode) returns (num: u16)
    requires bits as object != disk.data && bit < 32 * bits.Length && sb.magic == MAGIC
    modifies disk.data, bits
    ensures InodeAlloc(disk.Contents(), Bits(bits[..]), num)
         == Installed(sb, old(disk.Contents()), old(Bits(bits[..])), bit, ip)
  {
    ghost var before := Bits(bits[..]);
    Set(bits, bit);
    num := Low16(bit + 1);
    var ret := InodeWrite(disk, sb, ip, num);
    if ret < 0 {
      Clear(bits, bit);
      assert before[bit := true][bit := false] == before[bit := false];
      return NULL_INODE;
    }
  }

  /** The search of minix_inode_alloc(), over `s_ninodes` bytes. */
  method FindFreeInode(sb: Super, bits: array<bv32>) returns (bit: nat)
    requires Searchable(sb, Bits(bits[..]))
    ensures var b := Bits(bits[..]);
      bit == if LeastClear(b) == |b| || LeastClear(b) >= 32 * (sb.ninodes as int / 4) then FULL else LeastClear(b)
  {
    ghost var b := Bits(bits[..]);
    bit := FindFirstFree(bits, sb.ninodes);
    if bit != FULL { LeastClearIs(b, bit); }
  }

  /** minix_inode_free(): 0 on success. */
  method FreeInodeNumber(sb: Super, bits: array<bv32>, num: u16) returns (ret: int)
    requires 0 < num <= sb.ninodes ==> num <= 32 * bits.Length
    modifies bits
    ensures Freed(Bits(bits[..]), ret == 0) == InodeFreed(sb, old(Bits(bits[..])), num)
  {
    if sb.magic != MAGIC { return EINVAL; }
    var n := Previous(num);
    if n >= sb.ninodes { return EINVAL; }
    Clear(bits, n);
    return 0;
  }
}
