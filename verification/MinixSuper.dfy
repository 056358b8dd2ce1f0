/**
  Mounting: the superblock and the two maps on the device (src/sys/fs/vfs/minix/super.c).

  A map is an array of words in memory and a run of bytes on the device. `Pack` and `Unpack`
  are the two views of the same little-endian memory, least significant bit first.
 */
module MinixSuper {
  import opened Disk
  import opened MinixFormat
  import opened Words
  import opened Bitmaps
  import opened MinixBlocks
  import opened MinixDir
  import opened MinixRun

  // ----- maps as bytes

  function PowerOfTwo(n: nat): (r: nat)
    ensures r > 0
  {
    if n == 0 then 1 else 2 * PowerOfTwo(n - 1)
  }

  /** The number whose binary digits are `b`, least significant first. */
  function Value(b: Bitmap): (r: nat)
    ensures r < PowerOfTwo(|b|)
  {
    if b == [] then 0 else (if b[0] then 1 else 0) + 2 * Value(b[1..])
  }

  predicate Digit(x: nat, i: nat)
  {
    if i == 0 then x % 2 == 1 else Digit(x / 2, i - 1)
  }

  lemma {:induction false} DigitOfValue(b: Bitmap, i: nat)
    requires i < |b|
    ensures Digit(Value(b), i) == b[i]
  {
    if i > 0 { DigitOfValue(b[1..], i - 1); }
  }

  function PackByte(b: Bitmap): byte
    requires |b| == 8
  {
    assert PowerOfTwo(4) == 16 && PowerOfTwo(8) == 16 * PowerOfTwo(4);
    Value(b)
  }

  /** A map as the bytes of its memory. */
  function Pack(b: Bitmap): (r: Image)
    ensures |r| == |b| / 8
  {
    seq(|b| / 8, k requires 0 <= k < |b| / 8 => PackByte(b[8 * k..8 * k + 8]))
  }

  function Unpack(s: Image): (b: Bitmap)
    ensures |b| == 8 * |s|
  {
    seq(8 * |s|, i requires 0 <= i < 8 * |s| => Digit(s[i / 8], i % 8))
  }

  /** Storing a map and loading it back gives the same map. */
  lemma PackRoundTrip(b: Bitmap)
    requires |b| % 8 == 0
    ensures Unpack(Pack(b)) == b
  {
    forall i: nat | i < |b| ensures Unpack(Pack(b))[i] == b[i] {
      var chunk := b[8 * (i / 8)..8 * (i / 8) + 8];
      assert chunk[i % 8] == b[i];
      DigitOfValue(chunk, i % 8);
    }
  }

  lemma ZeroWord(j: nat)
    requires j < 32
    ensures !Bit(0, j)
  {}

  /** Loads a map into a fresh array. */
  method ToWords(s: Image) returns (a: array<bv32>)
    requires |s| % 4 == 0
    ensures fresh(a) && a.Length == |s| / 4 && Bits(a[..]) == Unpack(s)
  {
    a := new bv32[|s| / 4](_ => 0);
    var b := Unpack(s);
    forall j: nat | j < 32 ensures !Bit(0, j) { ZeroWord(j); }
    assert Loaded(Bits(a[..]), b, 0);
    for i := 0 to |b|
      invariant fresh(a) && a.Length == |s| / 4 && Loaded(Bits(a[..]), b, i)
    {
      LoadBit(Bits(a[..]), b, i);
      if b[i] { Set(a, i); }
    }
  }

  /** The first `i` bits are loaded, the others are still clear. */
  ghost predicate Loaded(x: Bitmap, b: Bitmap, i: nat)
  {
    |x| == |b| && forall j: nat | j < |b| :: x[j] == (j < i && b[j])
  }

  lemma LoadBit(x: Bitmap, b: Bitmap, i: nat)
    requires Loaded(x, b, i) && i < |b|
    ensures Loaded(if b[i] then x[i := true] else x, b, i + 1)
  {}

  // ----- minix_super_write() and minix_super_read()

  /** The maps have the sizes the superblock announces. */
  predicate MapsFit(sb: Super, zbits: Bitmap, ibits: Bitmap)
  {
    |zbits| == 8192 * sb.bmapBlocks as int && |ibits| == 8192 * sb.imapBlocks as int
  }

  function ZoneMapAt(sb: Super): nat { (2 + sb.imapBlocks as int) * 1024 }

  datatype SuperOutcome = SuperOutcome(disk: Image, ret: int)

  /** minix_super_write(): the superblock reaches the device before its magic is checked. */
  function SuperStored(sb: Super, disk: Image, zbits: Bitmap, ibits: Bitmap): SuperOutcome
    requires MapsFit(sb, zbits, ibits)
  {
    if !InRange(disk, 1024, SUPER_SIZE) then SuperOutcome(disk, EINVAL)
    else
      var d1 := Splice(disk, 1024, PutSuper(sb));
      if sb.magic != MAGIC || !InRange(d1, 2048, |Pack(ibits)|) then SuperOutcome(d1, EINVAL)
      else
        var d2 := Splice(d1, 2048, Pack(ibits));
        if !InRange(d2, ZoneMapAt(sb), |Pack(zbits)|) then SuperOutcome(d2, EINVAL)
        else SuperOutcome(Splice(d2, ZoneMapAt(sb), Pack(zbits)), 0)
  }

  datatype Mount = Mounted(sb: Super, zbits: Bitmap, ibits: Bitmap) | NotMounted(code: int)

  /** minix_super_read(). */
  function SuperLoaded(disk: Image): Mount
  {
    if !InRange(disk, 1024, SUPER_SIZE) then NotMounted(EINVAL)
    else
      var sb := GetSuper(disk[1024..1042]);
      if sb.magic != MAGIC then NotMounted(EINVAL) else MapsLoaded(disk, sb)
  }

  function MapsLoaded(disk: Image, sb: Super): Mount
  {
    var m, z := sb.imapBlocks as int * 1024, sb.bmapBlocks as int * 1024;
    if !InRange(disk, 2048, m) || !InRange(disk, ZoneMapAt(sb), z) then NotMounted(EINVAL)
    else Mounted(sb, Unpack(disk[ZoneMapAt(sb)..ZoneMapAt(sb) + z]), Unpack(disk[2048..2048 + m]))
  }

  /** What a successful minix_super_write() leaves on the device. */
  lemma StoredParts(sb: Super, disk: Image, zbits: Bitmap, ibits: Bitmap)
    requires MapsFit(sb, zbits, ibits) && SuperStored(sb, disk, zbits, ibits).ret == 0
    ensures var d := SuperStored(sb, disk, zbits, ibits).disk;
      var z := ZoneMapAt(sb);
      && |d| == |disk| && InRange(d, 1024, SUPER_SIZE)
      && InRange(d, 2048, |Pack(ibits)|) && InRange(d, z, |Pack(zbits)|)
      && d[1024..1042] == PutSuper(sb)
      && d[2048..2048 + |Pack(ibits)|] == Pack(ibits)
      && d[z..z + |Pack(zbits)|] == Pack(zbits)
  {
    var d1 := Splice(disk, 1024, PutSuper(sb));
    var d2 := Splice(d1, 2048, Pack(ibits));
    var z := ZoneMapAt(sb);
    SpliceSlice(disk, 1024, PutSuper(sb), 1024, 1042);
    SpliceSlice(d1, 2048, Pack(ibits), 1024, 1042);
    SpliceSlice(d2, z, Pack(zbits), 1024, 1042);
    SpliceSlice(d1, 2048, Pack(ibits), 2048, 2048 + |Pack(ibits)|);
    SpliceSlice(d2, z, Pack(zbits), 2048, 2048 + |Pack(ibits)|);
    SpliceSlice(d2, z, Pack(zbits), z, z + |Pack(zbits)|);
  }

  /** Mounting what was written gives back the superblock and both maps, whatever the geometry. */
  lemma MountRoundTrip(sb: Super, disk: Image, zbits: Bitmap, ibits: Bitmap)
    requires MapsFit(sb, zbits, ibits) && SuperStored(sb, disk, zbits, ibits).ret == 0
    ensures SuperLoaded(SuperStored(sb, disk, zbits, ibits).disk) == Mounted(sb, zbits, ibits)
  {
    StoredParts(sb, disk, zbits, ibits);
    SuperRoundTrip(sb);
    LoadedParts(SuperStored(sb, disk, zbits, ibits).disk, sb, Pack(zbits), Pack(ibits));
    PackRoundTrip(zbits);
    PackRoundTrip(ibits);
  }

  /** What minix_super_read() makes of a device that holds the three parts. */
  lemma LoadedParts(d: Image, sb: Super, zbytes: Image, ibytes: Image)
    requires |zbytes| == 1024 * sb.bmapBlocks as int && |ibytes| == 1024 * sb.imapBlocks as int
    requires InRange(d, 1024, SUPER_SIZE) && InRange(d, 2048, |ibytes|) && InRange(d, ZoneMapAt(sb), |zbytes|)
    requires GetSuper(d[1024..1042]) == sb && sb.magic == MAGIC
    requires d[2048..2048 + |ibytes|] == ibytes
    requires d[ZoneMapAt(sb)..ZoneMapAt(sb) + |zbytes|] == zbytes
    ensures SuperLoaded(d) == Mounted(sb, Unpack(zbytes), Unpack(ibytes))
  {}

  /** Writing the superblock fails exactly when the device is too small or the magic is wrong. */
  lemma StoredIff(sb: Super, disk: Image, zbits: Bitmap, ibits: Bitmap)
    requires MapsFit(sb, zbits, ibits)
    ensures SuperStored(sb, disk, zbits, ibits).ret == 0 <==>
      && sb.magic == MAGIC
      && 1042 <= |disk| && 2048 < |disk| && ZoneMapAt(sb) < |disk|
      && (2 + sb.imapBlocks as int + sb.bmapBlocks as int) * 1024 <= |disk|
  {}

  /** Inode slots and data blocks are not touched. */
  lemma StoredFrame(sb: Super, disk: Image, zbits: Bitmap, ibits: Bitmap)
    requires MapsFit(sb, zbits, ibits)
    ensures var d := SuperStored(sb, disk, zbits, ibits).disk;
      && |d| == |disk|
      && forall i: nat | i < |disk| && (i < 1024 || (2 + sb.imapBlocks as int + sb.bmapBlocks as int) * 1024 <= i) :: d[i] == disk[i]
  {}

  lemma StoredIsTableOnly(sb: Super, disk: Image, zbits: Bitmap, ibits: Bitmap)
    requires MapsFit(sb, zbits, ibits) && InodesFit(sb) && 0 < sb.ninodes
    requires sb.magic == MAGIC && sb.firstData as int * 1024 <= |disk|
    ensures SuperStored(sb, disk, zbits, ibits).ret == 0
    ensures TableOnly(sb, disk, SuperStored(sb, disk, zbits, ibits).disk)
  {
    StoredIff(sb, disk, zbits, ibits);
    StoredFrame(sb, disk, zbits, ibits);
  }

  lemma StoredKeepsInode(sb: Super, disk: Image, zbits: Bitmap, ibits: Bitmap, n: nat)
    requires MapsFit(sb, zbits, ibits) && InodesFit(sb) && n < sb.ninodes && sb.firstData as int * 1024 <= |disk|
    ensures SameInode(sb, disk, SuperStored(sb, disk, zbits, ibits).disk, n)
  {
    StoredFrame(sb, disk, zbits, ibits);
    FrameKeepsInode(sb, disk, SuperStored(sb, disk, zbits, ibits).disk, n);
  }

  /** Slot `n` of the inode table is the same on both devices. */
  ghost predicate SameInode(sb: Super, disk: Image, disk': Image, n: nat)
  {
    && InRange(disk', InodeAt(sb, n), INODE_SIZE) && InRange(disk, InodeAt(sb, n), INODE_SIZE)
    && InodeIn(sb, disk', n) == InodeIn(sb, disk, n)
  }

  lemma FrameKeepsInode(sb: Super, disk: Image, disk': Image, n: nat)
    requires InodesFit(sb) && n < sb.ninodes && sb.firstData as int * 1024 <= |disk| == |disk'|
    requires forall i: nat | i < |disk| && (2 + sb.imapBlocks as int + sb.bmapBlocks as int) * 1024 <= i :: disk'[i] == disk[i]
    ensures SameInode(sb, disk, disk', n)
  {
    InodeSlotPlace(sb, n);
    SameSlot(disk, disk', InodeAt(sb, n), (2 + sb.imapBlocks as int + sb.bmapBlocks as int) * 1024);
  }

  /** The file system once its superblock and maps have been written back. */
  ghost function Synced(sb: Super, st: Files, ibits: Bitmap): Files
    requires MapsFit(sb, st.vol.zmap, ibits)
  {
    st.(vol := st.vol.(disk := SuperStored(sb, st.vol.disk, st.vol.zmap, ibits).disk))
  }

  /** Synchronising and mounting again keeps the whole file system: superblock, maps, every
      inode slot, the invariant of all files and the contents of all directories. */
  lemma RemountKeepsAll(sb: Super, st: Files, ibits: Bitmap)
    requires FsInv(sb, st.vol, st.inodes) && MapsFit(sb, st.vol.zmap, ibits) && 0 < sb.ninodes
    ensures SuperLoaded(Synced(sb, st, ibits).vol.disk) == Mounted(sb, st.vol.zmap, ibits)
    ensures FsInv(sb, Synced(sb, st, ibits).vol, st.inodes) && Dirs(Synced(sb, st, ibits)) == Dirs(st)
    ensures forall n: nat | n < sb.ninodes :: SameInode(sb, st.vol.disk, Synced(sb, st, ibits).vol.disk, n)
  {
    var r := SuperStored(sb, st.vol.disk, st.vol.zmap, ibits);
    StoredIsTableOnly(sb, st.vol.disk, st.vol.zmap, ibits);
    MountRoundTrip(sb, st.vol.disk, st.vol.zmap, ibits);
    SyncedKeeps(sb, st, ibits, r);
  }

  lemma SyncedKeeps(sb: Super, st: Files, ibits: Bitmap, r: SuperOutcome)
    requires FsInv(sb, st.vol, st.inodes) && MapsFit(sb, st.vol.zmap, ibits)
    requires r == SuperStored(sb, st.vol.disk, st.vol.zmap, ibits) && TableOnly(sb, st.vol.disk, r.disk)
    ensures FsInv(sb, st.vol.(disk := r.disk), st.inodes) && Dirs(st.(vol := st.vol.(disk := r.disk))) == Dirs(st)
    ensures forall n: nat | n < sb.ninodes :: SameInode(sb, st.vol.disk, r.disk, n)
  {
    TableOnlyKeepsDirs(sb, st.vol, st.inodes, r.disk);
    forall n: nat | n < sb.ninodes ensures SameInode(sb, st.vol.disk, r.disk, n) {
      StoredKeepsInode(sb, st.vol.disk, st.vol.zmap, ibits, n);
    }
  }

  lemma SameSlot(disk: Image, disk': Image, at: nat, lo: nat)
    requires |disk'| == |disk| && lo <= at && at + INODE_SIZE <= |disk|
    requires forall i: nat | i < |disk| && lo <= i :: disk'[i] == disk[i]
    ensures disk'[at..at + INODE_SIZE] == disk[at..at + INODE_SIZE]
  {}

  /** minix_super_write(). */
  method SuperWrite(disk: RamDisk, sb: Super, zmap: array<bv32>, bits: array<bv32>) returns (ret: int)
    requires MapsFit(sb, Bits(zmap[..]), Bits(bits[..]))
    requires zmap as object != disk.data && bits as object != disk.data
    modifies disk.data
    ensures SuperOutcome(disk.Contents(), ret)
         == old(SuperStored(sb, disk.Contents(), Bits(zmap[..]), Bits(bits[..])))
  {
    var w := disk.Write(0, PutSuper(sb), 1024);
    if w < 0 { return w; }
    if sb.magic != MAGIC { return EINVAL; }
    w := disk.Write(0, Pack(Bits(bits[..])), 2048);
    if w < 0 { return w; }
    w := disk.Write(0, Pack(Bits(zmap[..])), ZoneMapAt(sb));
    if w < 0 { return w; }
    return 0;
  }

  /** minix_super_read(): the maps are meaningful only when 0 is returned. */
  method SuperRead(disk: RamDisk) returns (ret: int, sb: Super, zmap: array<bv32>, bits: array<bv32>)
    ensures ret == 0 <==> SuperLoaded(disk.Contents()).Mounted?
    ensures ret == 0 ==> SuperLoaded(disk.Contents()) == Mounted(sb, Bits(zmap[..]), Bits(bits[..]))
    ensures ret != 0 ==> SuperLoaded(disk.Contents()) == NotMounted(ret)
    ensures fresh(zmap) && fresh(bits)
  {
    zmap, bits := new bv32[0], new bv32[0];
    sb := Super(0, 0, 0, 0, 0, 0, 0, 0);
    var n, bytes := disk.Read(0, SUPER_SIZE, 1024);
    if n < 0 { return n, sb, zmap, bits; }
    sb := GetSuper(bytes);
    if sb.magic != MAGIC { return EINVAL, sb, zmap, bits; }
    ret, zmap, bits := MapsRead(disk, sb);
  }

  /** The part of minix_super_read() that loads the maps. */
  method MapsRead(disk: RamDisk, sb: Super) returns (ret: int, zmap: array<bv32>, bits: array<bv32>)
    ensures ret == 0 <==> MapsLoaded(disk.Contents(), sb).Mounted?
    ensures ret == 0 ==> MapsLoaded(disk.Contents(), sb) == Mounted(sb, Bits(zmap[..]), Bits(bits[..]))
    ensures ret != 0 ==> MapsLoaded(disk.Contents(), sb) == NotMounted(ret)
    ensures fresh(zmap) && fresh(bits)
  {
    ret, bits := LoadMap(disk, sb.imapBlocks, 2048);
    if ret < 0 { return ret, bits, bits; }
    ret, zmap := LoadMap(disk, sb.bmapBlocks, ZoneMapAt(sb));
  }

  /** Loads one map from the device into a fresh array. */
  method LoadMap(disk: RamDisk, nblocks: u16, off: nat) returns (ret: int, a: array<bv32>)
    ensures fresh(a)
    ensures ret == if InRange(disk.Contents(), off, nblocks as int * 1024) then 0 else EINVAL
    ensures ret == 0 ==> Bits(a[..]) == Unpack(disk.Contents()[off..off + nblocks as int * 1024])
  {
    var n, bytes := disk.Read(0, nblocks as int * 1024, off);
    if n < 0 { a := new bv32[0]; return n, a; }
    a := ToWords(bytes);
    return 0, a;
  }
}
