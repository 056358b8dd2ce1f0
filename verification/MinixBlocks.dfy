/**
  Block allocation and block mapping (src/sys/fs/vfs/minix/block.c).

  A volume is the raw device image together with the in-memory zone map. The functions
  `Allocated` and `Mapped` say what minix_block_alloc() and minix_block_map() do to it; the
  invariant `MapInv` speaks of any number of files that share the volume.
 */
module MinixBlocks {
  import opened Disk
  import opened MinixFormat
  import opened Bitmaps

  datatype Volume = Volume(disk: Image, zmap: Bitmap)

  /** What a call reports: a block number (0 is the null block), a panic, or a number taken
      from a stack buffer that a failed device read left uninitialised. */
  datatype Outcome = Block(num: u16) | Panic | Garbage

  datatype Alloc = Alloc(zmap: Bitmap, num: u16)

  datatype Mapping = Mapping(vol: Volume, ip: DInode, outcome: Outcome)

  /** Number of logical blocks that a file can map: the direct and single-indirect zones. */
  const LOGICAL := 519

  // ----- what the code does

  /** minix_block_alloc(). */
  function Allocated(sb: Super, zmap: Bitmap): (r: Alloc)
    ensures |r.zmap| == |zmap|
  {
    if sb.magic != MAGIC then
      Alloc(zmap, NULL_BLOCK)
    else
      var bit := LeastClear(zmap);
      if bit == |zmap| then Alloc(zmap, NULL_BLOCK)
      else Alloc(zmap[bit := true], (sb.firstData as int + bit) % 0x1_0000)
  }

  /** The logical block number of a byte offset, as the 16-bit variable holds it. */
  function LogicOf(off: nat): nat { off / 1024 % 0x1_0000 }

  /** minix_block_map(). */
  function Mapped(sb: Super, vol: Volume, ip: DInode, off: nat, create: bool): (r: Mapping)
    ensures |r.vol.disk| == |vol.disk| && |r.vol.zmap| == |vol.zmap|
  {
    if sb.magic != MAGIC || off % 0x1_0000_0000 >= sb.maxSize then Mapping(vol, ip, Block(NULL_BLOCK))
    else BlockMapped(sb, vol, ip, LogicOf(off), create || off % 0x1_0000_0000 < ip.size)
  }

  /** The part of minix_block_map() that follows the offset checks, for logical block `l`. */
  function BlockMapped(sb: Super, vol: Volume, ip: DInode, l: nat, create: bool): (r: Mapping)
    ensures |r.vol.disk| == |vol.disk| && |r.vol.zmap| == |vol.zmap|
  {
    if l < DIRECT then ZoneMapped(sb, vol, ip, l, create)
    else if l < LOGICAL then
      EntryMapped(sb, ZoneMapped(sb, vol, ip, ZONE_SINGLE, create), l - DIRECT, create)
    else Mapping(vol, ip, Panic)
  }

  /** For offsets within the maximum file size nothing is truncated. */
  lemma MappedIsBlock(sb: Super, vol: Volume, ip: DInode, off: nat, create: bool)
    requires sb.magic == MAGIC && off < sb.maxSize <= 0x1_0000 * 1024
    ensures Mapped(sb, vol, ip, off, create) == BlockMapped(sb, vol, ip, off / 1024, create || off < ip.size)
  {
    NoTruncation(off);
  }

  lemma NoTruncation(off: nat)
    requires off < 0x1_0000 * 1024
    ensures off % 0x1_0000_0000 == off && LogicOf(off) == off / 1024
  {}

  /** Fills zone `k` of the inode if it is empty. */
  function ZoneMapped(sb: Super, vol: Volume, ip: DInode, k: nat, create: bool): (r: Mapping)
    requires k < 9
    ensures |r.vol.disk| == |vol.disk| && |r.vol.zmap| == |vol.zmap|
  {
    if ip.zones[k] == NULL_BLOCK && create then
      var a := Allocated(sb, vol.zmap);
      Mapping(vol.(zmap := a.zmap), ip.(zones := ip.zones[k := a.num]), Block(a.num))
    else
      Mapping(vol, ip, Block(ip.zones[k]))
  }

  /** Reads entry `j` of the single-indirect block, filling it if it is empty. */
  function EntryMapped(sb: Super, m: Mapping, j: nat, create: bool): (r: Mapping)
    requires j < SINGLE
    ensures |r.vol.disk| == |m.vol.disk| && |r.vol.zmap| == |m.vol.zmap|
  {
    var ind: int := m.ip.zones[ZONE_SINGLE];
    if ind == NULL_BLOCK then
      m.(outcome := Panic)
    else if (ind + 1) * 1024 > |m.vol.disk| then
      m.(outcome := Garbage)
    else
      var at := ind * 1024 + 2 * j;
      var e := Get16(m.vol.disk, at);
      if e == NULL_BLOCK && create then
        var a := Allocated(sb, m.vol.zmap);
        Mapping(Volume(Splice(m.vol.disk, at, Put16(a.num)), a.zmap), m.ip, Block(a.num))
      else
        m.(outcome := Block(e))
  }

  // ----- block references

  /** The reference slots of a file: its logical blocks, and the indirect block itself. */
  const INDIRECT := 519
  const SLOTS := 520

  /** The block that slot `s` of a file refers to, or 0. */
  function Ref(disk: Image, ip: DInode, s: nat): (b: u16)
    requires s < SLOTS
  {
    var ind: int := ip.zones[ZONE_SINGLE];
    if s < DIRECT then ip.zones[s]
    else if s == INDIRECT then ind
    else if ind == NULL_BLOCK || (ind + 1) * 1024 > |disk| then NULL_BLOCK
    else Get16(disk, ind * 1024 + 2 * (s - DIRECT))
  }

  /** `b` lies in the data area of the device and is marked in the zone map. */
  predicate Owned(sb: Super, zmap: Bitmap, b: int)
  {
    sb.firstData <= b < sb.nblocks && b - sb.firstData < |zmap| && zmap[b - sb.firstData]
  }

  predicate InBlock(b: int, i: int) { b * 1024 <= i < (b + 1) * 1024 }

  ghost predicate SameBlock(disk: Image, disk': Image, b: int)
    requires |disk| == |disk'|
  {
    forall i: nat {:trigger InBlock(b, i)} {:trigger disk'[i]} | i < |disk| && InBlock(b, i) :: disk'[i] == disk[i]
  }

  ghost predicate ZeroBlock(disk: Image, b: int)
  {
    forall i: nat {:trigger InBlock(b, i)} | i < |disk| && InBlock(b, i) :: disk[i] == 0
  }

  /** The layout that minix_mkfs() computes, on a device that holds it. */
  predicate Fits(sb: Super, vol: Volume)
  {
    && sb.magic == MAGIC
    && sb.maxSize <= 0x1_0000 * 1024
    && 0 < sb.firstData <= sb.nblocks
    && sb.nblocks as int * 1024 <= |vol.disk|
  }

  /** Every allocation so far landed on the device. */
  predicate OnDevice(sb: Super, zmap: Bitmap)
  {
    NSet(zmap) <= sb.nblocks as int - sb.firstData as int
  }

  ghost predicate RefsOwned(sb: Super, vol: Volume, files: seq<DInode>)
  {
    forall f: nat, s: nat | f < |files| && s < SLOTS ::
      Ref(vol.disk, files[f], s) != NULL_BLOCK ==> Owned(sb, vol.zmap, Ref(vol.disk, files[f], s))
  }

  /** Slot `s` of file `f` and slot `t` of file `g` refer to the same block. */
  predicate Clash(disk: Image, files: seq<DInode>, f: nat, s: nat, g: nat, t: nat)
  {
    && f < |files| && s < SLOTS && g < |files| && t < SLOTS
    && Ref(disk, files[f], s) == Ref(disk, files[g], t) != NULL_BLOCK
  }

  ghost predicate RefsDistinct(disk: Image, files: seq<DInode>)
  {
    forall f: nat, s: nat, g: nat, t: nat :: Clash(disk, files, f, s, g, t) ==> f == g && s == t
  }

  ghost predicate FreeIsZero(sb: Super, vol: Volume)
  {
    forall b: nat {:trigger ZeroBlock(vol.disk, b)} | sb.firstData <= b < sb.nblocks && !Owned(sb, vol.zmap, b) ::
      ZeroBlock(vol.disk, b)
  }

  /** No two references of any files coincide, every reference is allocated, and every
      unallocated data block reads as zeros. */
  ghost predicate MapInv(sb: Super, vol: Volume, files: seq<DInode>)
  {
    Fits(sb, vol) && RefsOwned(sb, vol, files) && RefsDistinct(vol.disk, files) && FreeIsZero(sb, vol)
  }

  /** Slot `s` of file `f` is the only reference that changed, and it now holds `p`. */
  ghost predicate OnlyRef(disk: Image, files: seq<DInode>, disk': Image, files': seq<DInode>, f: nat, s: nat, p: u16)
  {
    && |files'| == |files|
    && forall g: nat, t: nat | g < |files| && t < SLOTS ::
         Ref(disk', files'[g], t) == if g == f && t == s then p else Ref(disk, files[g], t)
  }

  // ----- one allocation

  /** A successful allocation marks one fresh block of the device. */
  lemma AllocatedFresh(sb: Super, zmap: Bitmap)
    requires sb.magic == MAGIC && 0 < sb.firstData <= sb.nblocks
    requires var a := Allocated(sb, zmap); a.zmap != zmap ==> OnDevice(sb, a.zmap)
    ensures var a := Allocated(sb, zmap);
      && NSet(zmap) <= NSet(a.zmap) <= NSet(zmap) + 1
      && (a.num == NULL_BLOCK <==> a.zmap == zmap)
      && (a.num == NULL_BLOCK <==> NSet(zmap) == |zmap|)
      && (a.num != NULL_BLOCK ==>
            && sb.firstData <= a.num < sb.nblocks
            && !Owned(sb, zmap, a.num)
            && a.num - sb.firstData < |zmap|
            && a.zmap == zmap[a.num - sb.firstData := true])
  {
    var bit := LeastClear(zmap);
    RoomIffCount(zmap);
    if bit < |zmap| {
      FirstFreeBound(zmap, bit);
      NSetUpdate(zmap, bit, true);
      assert zmap[bit := true][bit];
    }
  }

  /** A reference set to a fresh block keeps all references owned and distinct. */
  lemma FreshRef(sb: Super, vol: Volume, files: seq<DInode>, vol': Volume, files': seq<DInode>, f: nat, s: nat, p: u16)
    requires RefsOwned(sb, vol, files) && RefsDistinct(vol.disk, files)
    requires f < |files| && s < SLOTS && p != NULL_BLOCK
    requires OnlyRef(vol.disk, files, vol'.disk, files', f, s, p)
    requires sb.firstData <= p < sb.nblocks && !Owned(sb, vol.zmap, p)
    requires p - sb.firstData < |vol.zmap| && vol'.zmap == vol.zmap[p - sb.firstData := true]
    ensures RefsOwned(sb, vol', files') && RefsDistinct(vol'.disk, files')
  {
    forall g: nat, t: nat | g < |files'| && t < SLOTS && Ref(vol'.disk, files'[g], t) != NULL_BLOCK
      ensures Owned(sb, vol'.zmap, Ref(vol'.disk, files'[g], t))
    {
      assert Ref(vol'.disk, files'[g], t) == if g == f && t == s then p else Ref(vol.disk, files[g], t);
    }
    forall g: nat, t: nat, h: nat, u: nat | Clash(vol'.disk, files', g, t, h, u)
      ensures g == h && t == u
    {
      assert (g == f && t == s) || Owned(sb, vol.zmap, Ref(vol.disk, files[g], t));
      assert (h == f && u == s) || Owned(sb, vol.zmap, Ref(vol.disk, files[h], u));
      assert (g == f && t == s) || (h == f && u == s) || Clash(vol.disk, files, g, t, h, u);
    }
  }

  /** The slot that zone `k` of an inode fills. */
  function ZoneSlot(k: nat): nat { if k == ZONE_SINGLE then INDIRECT else k }

  lemma AssignZone(sb: Super, vol: Volume, files: seq<DInode>, f: nat, k: nat, c: bool)
    requires MapInv(sb, vol, files) && f < |files| && k <= ZONE_SINGLE
    requires OnDevice(sb, ZoneMapped(sb, vol, files[f], k, c).vol.zmap)
    ensures var m := ZoneMapped(sb, vol, files[f], k, c);
      && MapInv(sb, m.vol, files[f := m.ip])
      && m.vol.disk == vol.disk
      && OnlyRef(vol.disk, files, vol.disk, files[f := m.ip], f, ZoneSlot(k), m.ip.zones[k])
  {
    var m := ZoneMapped(sb, vol, files[f], k, c);
    var files' := files[f := m.ip];
    if files[f].zones[k] == NULL_BLOCK && c {
      AllocatedFresh(sb, vol.zmap);
      var p := m.ip.zones[k];
      if p != NULL_BLOCK {
        assert ZeroBlock(vol.disk, p);
        forall g: nat, t: nat | g < |files| && t < SLOTS
          ensures Ref(vol.disk, files'[g], t) == if g == f && t == ZoneSlot(k) then p else Ref(vol.disk, files[g], t)
        {
          if g == f && DIRECT <= t < INDIRECT && k == ZONE_SINGLE {
            ZeroEntry(vol.disk, p, t - DIRECT);
          }
        }
        FreshRef(sb, vol, files, m.vol, files', f, ZoneSlot(k), p);
        assert FreeIsZero(sb, m.vol);
      } else {
        assert m.ip == files[f] && files' == files;
      }
    } else {
      assert m.ip == files[f] && files' == files;
    }
  }

  lemma ZeroEntry(disk: Image, b: u16, j: nat)
    requires ZeroBlock(disk, b) && (b as int + 1) * 1024 <= |disk| && j < SINGLE
    ensures Get16(disk, b as int * 1024 + 2 * j) == 0
  {
    var at := b as int * 1024 + 2 * j;
    assert InBlock(b, at) && InBlock(b, at + 1);
  }

  lemma AssignEntry(sb: Super, m: Mapping, files: seq<DInode>, f: nat, j: nat, c: bool)
    requires MapInv(sb, m.vol, files) && f < |files| && files[f] == m.ip && j < SINGLE
    requires OnDevice(sb, EntryMapped(sb, m, j, c).vol.zmap)
    ensures var r := EntryMapped(sb, m, j, c);
      && r.ip == m.ip
      && MapInv(sb, r.vol, files)
      && OnlyRef(m.vol.disk, files, r.vol.disk, files, f, DIRECT + j, Ref(r.vol.disk, m.ip, DIRECT + j))
  {
    var r := EntryMapped(sb, m, j, c);
    if r.vol != m.vol {
      AllocatedFresh(sb, m.vol.zmap);
      var p := Allocated(sb, m.vol.zmap).num;
      EntryFrame(sb, m, j, c);
      EntryAssigned(sb, m.vol, files, f, j, r.vol, p);
    }
  }

  /** Entry `j` of the indirect block of file `f` was set to the fresh block `p`. */
  lemma EntryAssigned(sb: Super, vol: Volume, files: seq<DInode>, f: nat, j: nat, vol': Volume, p: u16)
    requires MapInv(sb, vol, files) && f < |files| && j < SINGLE
    requires var ind := files[f].zones[ZONE_SINGLE];
      && ind != NULL_BLOCK && (ind as int + 1) * 1024 <= |vol.disk|
      && vol'.disk == Splice(vol.disk, ind as int * 1024 + 2 * j, Put16(p))
      && forall i: nat | i < |vol.disk| && !InBlock(ind, i) :: vol'.disk[i] == vol.disk[i]
    requires p != NULL_BLOCK && sb.firstData <= p < sb.nblocks && !Owned(sb, vol.zmap, p)
    requires p - sb.firstData < |vol.zmap| && vol'.zmap == vol.zmap[p - sb.firstData := true]
    ensures MapInv(sb, vol', files)
    ensures OnlyRef(vol.disk, files, vol'.disk, files, f, DIRECT + j, Ref(vol'.disk, files[f], DIRECT + j))
  {
    var ind: int := files[f].zones[ZONE_SINGLE];
    assert Ref(vol.disk, files[f], INDIRECT) == ind;
    EntryRefs(vol.disk, files, f, j, p);
    FreshRef(sb, vol, files, vol', files, f, DIRECT + j, p);
    FreeStaysZero(sb, vol, vol', ind);
  }

  /** Only the indirect block of the file is written, and the reported block is the entry. */
  lemma EntryFrame(sb: Super, m: Mapping, j: nat, c: bool)
    requires j < SINGLE
    ensures var r := EntryMapped(sb, m, j, c);
      && (forall i: nat | i < |m.vol.disk| && !InBlock(m.ip.zones[ZONE_SINGLE], i) :: r.vol.disk[i] == m.vol.disk[i])
      && (r.outcome.Block? ==> r.outcome.num == Ref(r.vol.disk, m.ip, DIRECT + j))
      && (r.outcome.Panic? <==> m.ip.zones[ZONE_SINGLE] == NULL_BLOCK)
      && (r.outcome.Garbage? <==>
            m.ip.zones[ZONE_SINGLE] != NULL_BLOCK && (m.ip.zones[ZONE_SINGLE] as int + 1) * 1024 > |m.vol.disk|)
  {
    var r := EntryMapped(sb, m, j, c);
    if r.vol != m.vol {
      PutAt(m.vol.disk, m.ip.zones[ZONE_SINGLE] as int * 1024 + 2 * j, Allocated(sb, m.vol.zmap).num);
    }
  }

  lemma EntryRefs(disk: Image, files: seq<DInode>, f: nat, j: nat, p: u16)
    requires RefsDistinct(disk, files) && f < |files| && j < SINGLE
    requires var ind := files[f].zones[ZONE_SINGLE]; ind != NULL_BLOCK && (ind as int + 1) * 1024 <= |disk|
    ensures OnlyRef(disk, files,
                    Splice(disk, files[f].zones[ZONE_SINGLE] as int * 1024 + 2 * j, Put16(p)), files, f, DIRECT + j, p)
  {
    var ind := Ref(disk, files[f], INDIRECT);
    var at := ind as int * 1024 + 2 * j;
    PutAt(disk, at, p);
    forall g: nat, t: nat | g < |files| && t < SLOTS
      ensures Ref(Splice(disk, at, Put16(p)), files[g], t) == if g == f && t == DIRECT + j then p else Ref(disk, files[g], t)
    {
      assert Clash(disk, files, g, INDIRECT, f, INDIRECT) ==> g == f;
    }
  }

  /** Writing inside an allocated block leaves the unallocated ones zero. */
  lemma FreeStaysZero(sb: Super, vol: Volume, vol': Volume, b: int)
    requires FreeIsZero(sb, vol) && |vol'.disk| == |vol.disk| && |vol'.zmap| == |vol.zmap|
    requires Owned(sb, vol.zmap, b)
    requires forall i: nat | i < |vol.zmap| && vol.zmap[i] :: vol'.zmap[i]
    requires forall i: nat | i < |vol.disk| && !InBlock(b, i) :: vol'.disk[i] == vol.disk[i]
    ensures FreeIsZero(sb, vol')
  {
    forall c: nat | sb.firstData <= c < sb.nblocks && !Owned(sb, vol'.zmap, c)
      ensures ZeroBlock(vol'.disk, c)
    {
      assert ZeroBlock(vol.disk, c) && c != b;
    }
  }

  /** Storing a 16-bit word changes the two bytes of that word only. */
  lemma PutAt(disk: Image, at: nat, v: u16)
    requires at + 2 <= |disk|
    ensures Get16(Splice(disk, at, Put16(v)), at) == v
    ensures forall i: nat | i < |disk| && i != at && i != at + 1 :: Splice(disk, at, Put16(v))[i] == disk[i]
    ensures v == Get16(disk, at) ==> Splice(disk, at, Put16(v)) == disk
  {
    var d := Splice(disk, at, Put16(v));
    assert d[at] == Put16(v)[0] && d[at + 1] == Put16(v)[1];
  }

  // ----- one call of minix_block_map()

  /** References of other files are untouched, and an established reference never changes. */
  ghost predicate Stable(disk: Image, files: seq<DInode>, disk': Image, files': seq<DInode>)
  {
    && |files'| == |files|
    && forall g: nat, t: nat | g < |files| && t < SLOTS && Ref(disk, files[g], t) != NULL_BLOCK ::
         Ref(disk', files'[g], t) == Ref(disk, files[g], t)
  }

  /** The attributes that block mapping never touches. */
  predicate SameAttributes(ip: DInode, ip': DInode)
  {
    ip' == ip.(zones := ip'.zones)
  }

  lemma BlockMappedStep(sb: Super, vol: Volume, files: seq<DInode>, f: nat, l: nat, c: bool)
    requires MapInv(sb, vol, files) && f < |files|
    requires OnDevice(sb, BlockMapped(sb, vol, files[f], l, c).vol.zmap)
    ensures var r := BlockMapped(sb, vol, files[f], l, c);
      && MapInv(sb, r.vol, files[f := r.ip])
      && Stable(vol.disk, files, r.vol.disk, files[f := r.ip])
  {
    if l < DIRECT {
      AssignZone(sb, vol, files, f, l, c);
    } else if l < LOGICAL {
      MappedSingle(sb, vol, files, f, l - DIRECT, c);
    } else {
      assert files[f := files[f]] == files;
    }
  }

  /** Whatever the outcome of one call, as long as its allocations are on the device: the
      invariant holds for all files and no established reference has changed. */
  lemma MappedStep(sb: Super, vol: Volume, files: seq<DInode>, f: nat, off: nat, create: bool)
    requires MapInv(sb, vol, files) && f < |files|
    requires OnDevice(sb, Mapped(sb, vol, files[f], off, create).vol.zmap)
    ensures var r := Mapped(sb, vol, files[f], off, create);
      && MapInv(sb, r.vol, files[f := r.ip])
      && Stable(vol.disk, files, r.vol.disk, files[f := r.ip])
  {
    if off % 0x1_0000_0000 >= sb.maxSize {
      assert files[f := files[f]] == files;
    } else {
      BlockMappedStep(sb, vol, files, f, LogicOf(off), create || off % 0x1_0000_0000 < files[f].size);
    }
  }

  lemma MappedSingle(sb: Super, vol: Volume, files: seq<DInode>, f: nat, j: nat, c: bool)
    requires MapInv(sb, vol, files) && f < |files| && j < SINGLE
    requires OnDevice(sb, EntryMapped(sb, ZoneMapped(sb, vol, files[f], ZONE_SINGLE, c), j, c).vol.zmap)
    ensures var r := EntryMapped(sb, ZoneMapped(sb, vol, files[f], ZONE_SINGLE, c), j, c);
      && MapInv(sb, r.vol, files[f := r.ip])
      && Stable(vol.disk, files, r.vol.disk, files[f := r.ip])
  {
    var m := ZoneMapped(sb, vol, files[f], ZONE_SINGLE, c);
    var files1 := files[f := m.ip];
    EntryGrows(sb, m, j, c);
    AssignZone(sb, vol, files, f, ZONE_SINGLE, c);
    AssignEntry(sb, m, files1, f, j, c);
  }

  lemma EntryGrows(sb: Super, m: Mapping, j: nat, c: bool)
    requires j < SINGLE
    ensures NSet(m.vol.zmap) <= NSet(EntryMapped(sb, m, j, c).vol.zmap)
  {
    AllocatedGrows(sb, m.vol.zmap);
  }

  lemma AllocatedGrows(sb: Super, zmap: Bitmap)
    ensures NSet(zmap) <= NSet(Allocated(sb, zmap).zmap)
  {
    var bit := LeastClear(zmap);
    if bit < |zmap| { NSetUpdate(zmap, bit, true); }
  }

  /** A call changes only the zones of its inode and the bytes of its indirect block. */
  ghost predicate Framed(vol: Volume, ip: DInode, r: Mapping)
  {
    && |r.vol.disk| == |vol.disk|
    && SameAttributes(ip, r.ip)
    && (forall i: nat | i < |vol.disk| && !InBlock(r.ip.zones[ZONE_SINGLE], i) :: r.vol.disk[i] == vol.disk[i])
    && NSet(vol.zmap) <= NSet(r.vol.zmap)
  }

  lemma BlockMappedFrame(sb: Super, vol: Volume, ip: DInode, l: nat, c: bool)
    ensures Framed(vol, ip, BlockMapped(sb, vol, ip, l, c))
  {
    AllocatedGrows(sb, vol.zmap);
    if DIRECT <= l < LOGICAL {
      var m := ZoneMapped(sb, vol, ip, ZONE_SINGLE, c);
      EntryFrame(sb, m, l - DIRECT, c);
      EntryGrows(sb, m, l - DIRECT, c);
    }
  }

  lemma MappedFrame(sb: Super, vol: Volume, ip: DInode, off: nat, create: bool)
    ensures Framed(vol, ip, Mapped(sb, vol, ip, off, create))
  {
    if sb.magic == MAGIC && off % 0x1_0000_0000 < sb.maxSize {
      BlockMappedFrame(sb, vol, ip, LogicOf(off), create || off % 0x1_0000_0000 < ip.size);
    }
  }

  /** The block number a call reports is the reference of the logical block. */
  lemma BlockMappedReports(sb: Super, vol: Volume, ip: DInode, l: nat, c: bool)
    requires l < LOGICAL
    ensures var r := BlockMapped(sb, vol, ip, l, c);
      r.outcome.Block? ==> r.outcome.num == Ref(r.vol.disk, r.ip, l)
  {
    if DIRECT <= l { EntryFrame(sb, ZoneMapped(sb, vol, ip, ZONE_SINGLE, c), l - DIRECT, c); }
  }

  /** Mapping a block that is already there changes nothing at all. */
  lemma MappedHit(sb: Super, vol: Volume, ip: DInode, off: nat, create: bool)
    requires Fits(sb, vol) && off < sb.maxSize && off / 1024 < LOGICAL
    requires Ref(vol.disk, ip, off / 1024) != NULL_BLOCK
    ensures Mapped(sb, vol, ip, off, create) == Mapping(vol, ip, Block(Ref(vol.disk, ip, off / 1024)))
  {
    MappedIsBlock(sb, vol, ip, off, create);
    BlockMappedHit(sb, vol, ip, off / 1024, create || off < ip.size);
  }

  lemma BlockMappedHit(sb: Super, vol: Volume, ip: DInode, l: nat, c: bool)
    requires l < LOGICAL && Ref(vol.disk, ip, l) != NULL_BLOCK
    ensures BlockMapped(sb, vol, ip, l, c) == Mapping(vol, ip, Block(Ref(vol.disk, ip, l)))
  {}

  // ----- when does a call find room?

  /** Number of blocks a creating call has to allocate. */
  function Need(disk: Image, ip: DInode, l: nat): nat
    requires l < LOGICAL
  {
    if Ref(disk, ip, l) != NULL_BLOCK then 0
    else if l < DIRECT || ip.zones[ZONE_SINGLE] != NULL_BLOCK then 1
    else 2
  }

  predicate Room(sb: Super, zmap: Bitmap, n: nat)
  {
    NSet(zmap) + n <= |zmap| && NSet(zmap) + n <= sb.nblocks as int - sb.firstData as int
  }

  /** The call returned a data block of the device, reached through blocks of the device. */
  predicate Delivered(sb: Super, r: Mapping, l: nat)
  {
    && r.outcome.Block? && Owned(sb, r.vol.zmap, r.outcome.num)
    && (l < DIRECT || Owned(sb, r.vol.zmap, r.ip.zones[ZONE_SINGLE]))
  }

  lemma ZoneRoom(sb: Super, vol: Volume, ip: DInode, k: nat)
    requires Fits(sb, vol) && k <= ZONE_SINGLE
    requires if ip.zones[k] == NULL_BLOCK then Room(sb, vol.zmap, 1) else Owned(sb, vol.zmap, ip.zones[k])
    ensures var m := ZoneMapped(sb, vol, ip, k, true);
      && Owned(sb, m.vol.zmap, m.ip.zones[k])
      && (ip.zones[k] == NULL_BLOCK ==> !Owned(sb, vol.zmap, m.ip.zones[k]))
      && (forall b: int | Owned(sb, vol.zmap, b) :: Owned(sb, m.vol.zmap, b))
      && NSet(m.vol.zmap) == NSet(vol.zmap) + if ip.zones[k] == NULL_BLOCK then 1 else 0
  {
    if ip.zones[k] == NULL_BLOCK { AllocatedRoom(sb, vol.zmap); }
  }

  lemma EntryRoom(sb: Super, m: Mapping, j: nat)
    requires Fits(sb, m.vol) && j < SINGLE && Owned(sb, m.vol.zmap, m.ip.zones[ZONE_SINGLE])
    requires var e := Get16(m.vol.disk, m.ip.zones[ZONE_SINGLE] as int * 1024 + 2 * j);
      if e == NULL_BLOCK then Room(sb, m.vol.zmap, 1) else Owned(sb, m.vol.zmap, e)
    ensures var r := EntryMapped(sb, m, j, true);
      && r.ip == m.ip && r.outcome.Block? && Owned(sb, r.vol.zmap, r.outcome.num)
      && Owned(sb, r.vol.zmap, r.ip.zones[ZONE_SINGLE])
      && NSet(r.vol.zmap) == NSet(m.vol.zmap) +
           if Get16(m.vol.disk, m.ip.zones[ZONE_SINGLE] as int * 1024 + 2 * j) == NULL_BLOCK then 1 else 0
  {
    if Get16(m.vol.disk, m.ip.zones[ZONE_SINGLE] as int * 1024 + 2 * j) == NULL_BLOCK {
      AllocatedRoom(sb, m.vol.zmap);
    }
  }

  lemma SingleRoom(sb: Super, vol: Volume, files: seq<DInode>, f: nat, l: nat)
    requires MapInv(sb, vol, files) && f < |files| && DIRECT <= l < LOGICAL
    requires Room(sb, vol.zmap, Need(vol.disk, files[f], l))
    ensures var r := EntryMapped(sb, ZoneMapped(sb, vol, files[f], ZONE_SINGLE, true), l - DIRECT, true);
      Delivered(sb, r, l) && NSet(r.vol.zmap) == NSet(vol.zmap) + Need(vol.disk, files[f], l)
  {
    var ip := files[f];
    assert Ref(vol.disk, files[f], INDIRECT) == ip.zones[ZONE_SINGLE];
    ZoneRoom(sb, vol, ip, ZONE_SINGLE);
    var m := ZoneMapped(sb, vol, ip, ZONE_SINGLE, true);
    if ip.zones[ZONE_SINGLE] == NULL_BLOCK {
      assert ZeroBlock(vol.disk, m.ip.zones[ZONE_SINGLE]);
      ZeroEntry(vol.disk, m.ip.zones[ZONE_SINGLE], l - DIRECT);
    } else {
      assert Ref(vol.disk, files[f], l) == Get16(m.vol.disk, m.ip.zones[ZONE_SINGLE] as int * 1024 + 2 * (l - DIRECT));
    }
    SingleDelivered(sb, vol, ip, l, m);
  }

  /** The second half: the indirect block is there, and its entry is mapped. */
  lemma SingleDelivered(sb: Super, vol: Volume, ip: DInode, l: nat, m: Mapping)
    requires DIRECT <= l < LOGICAL && Fits(sb, m.vol) && Owned(sb, m.vol.zmap, m.ip.zones[ZONE_SINGLE])
    requires |m.vol.zmap| == |vol.zmap| && Room(sb, vol.zmap, Need(vol.disk, ip, l))
    requires var e := Get16(m.vol.disk, m.ip.zones[ZONE_SINGLE] as int * 1024 + 2 * (l - DIRECT));
      && NSet(m.vol.zmap) + (if e == NULL_BLOCK then 1 else 0) == NSet(vol.zmap) + Need(vol.disk, ip, l)
      && (e != NULL_BLOCK ==> Owned(sb, m.vol.zmap, e))
    ensures var r := EntryMapped(sb, m, l - DIRECT, true);
      Delivered(sb, r, l) && NSet(r.vol.zmap) == NSet(vol.zmap) + Need(vol.disk, ip, l)
  {
    EntryRoom(sb, m, l - DIRECT);
  }

  /** With room for the blocks it needs, a creating call delivers a block. */
  lemma RoomDelivers(sb: Super, vol: Volume, files: seq<DInode>, f: nat, l: nat)
    requires MapInv(sb, vol, files) && f < |files| && l < LOGICAL
    requires Room(sb, vol.zmap, Need(vol.disk, files[f], l))
    ensures var r := BlockMapped(sb, vol, files[f], l, true);
      && Delivered(sb, r, l) && OnDevice(sb, r.vol.zmap)
      && NSet(r.vol.zmap) == NSet(vol.zmap) + Need(vol.disk, files[f], l)
  {
    if l < DIRECT {
      assert Ref(vol.disk, files[f], l) == files[f].zones[l];
      ZoneRoom(sb, vol, files[f], l);
    } else {
      SingleRoom(sb, vol, files, f, l);
    }
  }

  lemma AllocatedRoom(sb: Super, zmap: Bitmap)
    requires sb.magic == MAGIC && 0 < sb.firstData <= sb.nblocks && Room(sb, zmap, 1)
    ensures var a := Allocated(sb, zmap);
      && NSet(a.zmap) == NSet(zmap) + 1
      && Owned(sb, a.zmap, a.num) && !Owned(sb, zmap, a.num)
      && (forall b: int | Owned(sb, zmap, b) :: Owned(sb, a.zmap, b))
  {
    AllocatedGrowsByOne(sb, zmap);
    AllocatedFresh(sb, zmap);
  }

  lemma AllocatedGrowsByOne(sb: Super, zmap: Bitmap)
    requires sb.magic == MAGIC && NSet(zmap) < |zmap|
    ensures NSet(Allocated(sb, zmap).zmap) == NSet(zmap) + 1
  {
    RoomIffCount(zmap);
    NSetUpdate(zmap, LeastClear(zmap), true);
  }

  /** The number of data blocks that have both a bit in the map and a place on the device. */
  function Places(sb: Super, zmap: Bitmap): nat
  {
    var d := if sb.firstData <= sb.nblocks then sb.nblocks as int - sb.firstData as int else 0;
    if d <= |zmap| then d else |zmap|
  }

  /** No bit beyond the data blocks of the device is set. */
  ghost predicate ZonesInside(sb: Super, zmap: Bitmap)
  {
    forall i: nat | Places(sb, zmap) <= i < |zmap| :: !zmap[i]
  }

  lemma {:induction false} CountTail(b: Bitmap, n: nat, m: nat)
    requires n <= m <= |b| && forall i: nat | n <= i < m :: !b[i]
    ensures Count(b, m) == Count(b, n)
  {
    if n < m { CountTail(b, n, m - 1); }
  }

  /** There is room for one block exactly when the least clear bit is that of a block of the device. */
  lemma RoomIffPlace(sb: Super, zmap: Bitmap)
    requires ZonesInside(sb, zmap) && sb.firstData <= sb.nblocks
    ensures NSet(zmap) <= Places(sb, zmap)
    ensures Room(sb, zmap, 1) <==> LeastClear(zmap) < Places(sb, zmap)
  {
    var n := Places(sb, zmap);
    CountTail(zmap, n, |zmap|);
    CountFull(zmap, n);
    CountMonotone(zmap, 0, n);
  }

  /** What an allocation does on such a map: it returns a block of the device exactly when there is
      room. */
  lemma AllocatedInside(sb: Super, zmap: Bitmap)
    requires sb.magic == MAGIC && ZonesInside(sb, zmap) && 0 < sb.firstData <= sb.nblocks && |zmap| <= 0x1_0000
    ensures var a := Allocated(sb, zmap);
      && (Owned(sb, a.zmap, a.num) <==> Room(sb, zmap, 1))
      && (Room(sb, zmap, 1) ==> ZonesInside(sb, a.zmap))
  {
    RoomIffPlace(sb, zmap);
  }

  /** A creating call delivers a block exactly when there is room for the blocks it needs. */
  lemma DeliveredIffRoom(sb: Super, vol: Volume, files: seq<DInode>, f: nat, l: nat)
    requires MapInv(sb, vol, files) && f < |files| && l < LOGICAL
    requires ZonesInside(sb, vol.zmap) && |vol.zmap| <= 0x1_0000
    ensures Delivered(sb, BlockMapped(sb, vol, files[f], l, true), l)
       <==> Room(sb, vol.zmap, Need(vol.disk, files[f], l))
  {
    var ip := files[f];
    RoomIffPlace(sb, vol.zmap);
    if Room(sb, vol.zmap, Need(vol.disk, ip, l)) {
      RoomDelivers(sb, vol, files, f, l);
    } else {
      AllocatedInside(sb, vol.zmap);
      if l >= DIRECT && ip.zones[ZONE_SINGLE] == NULL_BLOCK && Room(sb, vol.zmap, 1) {
        SecondAllocation(sb, vol, ip, l);
      }
    }
  }

  lemma SecondAllocation(sb: Super, vol: Volume, ip: DInode, l: nat)
    requires Fits(sb, vol) && FreeIsZero(sb, vol) && DIRECT <= l < LOGICAL && ip.zones[ZONE_SINGLE] == NULL_BLOCK
    requires ZonesInside(sb, vol.zmap) && |vol.zmap| <= 0x1_0000 && Room(sb, vol.zmap, 1) && !Room(sb, vol.zmap, 2)
    ensures !Delivered(sb, BlockMapped(sb, vol, ip, l, true), l)
  {
    var m := ZoneMapped(sb, vol, ip, ZONE_SINGLE, true);
    ZoneRoom(sb, vol, ip, ZONE_SINGLE);
    AllocatedGrowsByOne(sb, vol.zmap);
    AllocatedInside(sb, vol.zmap);
    AllocatedInside(sb, m.vol.zmap);
    assert ZeroBlock(vol.disk, m.ip.zones[ZONE_SINGLE]);
    ZeroEntry(vol.disk, m.ip.zones[ZONE_SINGLE], l - DIRECT);
  }

  /** With room for the blocks it needs, a creating call keeps all zone bits on the device. */
  lemma MappedInside(sb: Super, vol: Volume, files: seq<DInode>, f: nat, l: nat)
    requires MapInv(sb, vol, files) && f < |files| && l < LOGICAL
    requires ZonesInside(sb, vol.zmap) && |vol.zmap| <= 0x1_0000 && Room(sb, vol.zmap, Need(vol.disk, files[f], l))
    ensures ZonesInside(sb, BlockMapped(sb, vol, files[f], l, true).vol.zmap)
  {
    var ip := files[f];
    AllocatedInside(sb, vol.zmap);
    if l >= DIRECT && ip.zones[ZONE_SINGLE] == NULL_BLOCK {
      AllocatedGrowsByOne(sb, vol.zmap);
      AllocatedInside(sb, Allocated(sb, vol.zmap).zmap);
    } else if l >= DIRECT {
      assert Ref(vol.disk, files[f], INDIRECT) == ip.zones[ZONE_SINGLE];
    }
  }

  /** A call that creates nothing changes nothing. */
  lemma MappedNothing(sb: Super, vol: Volume, ip: DInode, l: nat)
    ensures var r := BlockMapped(sb, vol, ip, l, false); r.vol == vol && r.ip == ip
  {}

  // ----- runs

  datatype Call = Call(file: nat, off: nat, create: bool)

  datatype Files = Files(vol: Volume, inodes: seq<DInode>)

  /** The state after a sequence of minix_block_map() calls; a call that names no file is void. */
  function Run(sb: Super, st: Files, calls: seq<Call>): (r: Files)
    ensures |r.inodes| == |st.inodes|
    decreases |calls|
  {
    if calls == [] then st
    else
      var c := calls[0];
      if c.file < |st.inodes| then
        var m := Mapped(sb, st.vol, st.inodes[c.file], c.off, c.create);
        Run(sb, Files(m.vol, st.inodes[c.file := m.ip]), calls[1..])
      else
        Run(sb, st, calls[1..])
  }

  lemma {:induction false} RunGrows(sb: Super, st: Files, calls: seq<Call>)
    ensures NSet(st.vol.zmap) <= NSet(Run(sb, st, calls).vol.zmap)
    decreases |calls|
  {
    if calls != [] {
      var c := calls[0];
      if c.file < |st.inodes| {
        var m := Mapped(sb, st.vol, st.inodes[c.file], c.off, c.create);
        MappedFrame(sb, st.vol, st.inodes[c.file], c.off, c.create);
        RunGrows(sb, Files(m.vol, st.inodes[c.file := m.ip]), calls[1..]);
      } else {
        RunGrows(sb, st, calls[1..]);
      }
    }
  }

  /** Over any run whose allocations stay on the device, block mapping is injective across all
      files, every mapped block is allocated, and an established mapping never changes. */
  lemma {:induction false} RunInjectiveAndStable(sb: Super, st: Files, calls: seq<Call>)
    requires MapInv(sb, st.vol, st.inodes)
    requires OnDevice(sb, Run(sb, st, calls).vol.zmap)
    ensures var r := Run(sb, st, calls);
      MapInv(sb, r.vol, r.inodes) && Stable(st.vol.disk, st.inodes, r.vol.disk, r.inodes)
    decreases |calls|
  {
    if calls != [] {
      var c := calls[0];
      if c.file < |st.inodes| {
        var m := Mapped(sb, st.vol, st.inodes[c.file], c.off, c.create);
        var next := Files(m.vol, st.inodes[c.file := m.ip]);
        RunGrows(sb, next, calls[1..]);
        MappedStep(sb, st.vol, st.inodes, c.file, c.off, c.create);
        RunInjectiveAndStable(sb, next, calls[1..]);
        StableTransitive(st, next, Run(sb, next, calls[1..]));
      } else {
        RunInjectiveAndStable(sb, st, calls[1..]);
      }
    }
  }

  lemma StableTransitive(a: Files, b: Files, c: Files)
    requires Stable(a.vol.disk, a.inodes, b.vol.disk, b.inodes)
    requires Stable(b.vol.disk, b.inodes, c.vol.disk, c.inodes)
    ensures Stable(a.vol.disk, a.inodes, c.vol.disk, c.inodes)
  {}

  /** What the calls of a run return, in order; a void call returns the null block. */
  function Reports(sb: Super, st: Files, calls: seq<Call>): (r: seq<Outcome>)
    ensures |r| == |calls|
    decreases |calls|
  {
    if calls == [] then []
    else
      var c := calls[0];
      if c.file < |st.inodes| then
        var m := Mapped(sb, st.vol, st.inodes[c.file], c.off, c.create);
        [m.outcome] + Reports(sb, Files(m.vol, st.inodes[c.file := m.ip]), calls[1..])
      else
        [Block(NULL_BLOCK)] + Reports(sb, st, calls[1..])
  }

  predicate IsBlock(o: Outcome) { o.Block? && o.num != NULL_BLOCK }

  /** A reported block is the reference of its logical block, at the end of the call. */
  lemma MappedReports(sb: Super, vol: Volume, ip: DInode, off: nat, create: bool)
    requires Fits(sb, vol) && IsBlock(Mapped(sb, vol, ip, off, create).outcome)
    ensures var r := Mapped(sb, vol, ip, off, create);
      LogicOf(off) < LOGICAL && r.outcome.num == Ref(r.vol.disk, r.ip, LogicOf(off))
  {
    BlockMappedReports(sb, vol, ip, if LogicOf(off) < LOGICAL then LogicOf(off) else 0, create || off % 0x1_0000_0000 < ip.size);
  }

  /** A block reported anywhere in a run is still the reference of its logical block at the end. */
  lemma {:induction false} ReportIsFinal(sb: Super, st: Files, calls: seq<Call>, i: nat)
    requires MapInv(sb, st.vol, st.inodes) && OnDevice(sb, Run(sb, st, calls).vol.zmap)
    requires i < |calls| && IsBlock(Reports(sb, st, calls)[i])
    ensures var r, c := Run(sb, st, calls), calls[i];
      && c.file < |st.inodes| && LogicOf(c.off) < LOGICAL
      && Ref(r.vol.disk, r.inodes[c.file], LogicOf(c.off)) == Reports(sb, st, calls)[i].num
    decreases |calls|
  {
    var c := calls[0];
    if c.file < |st.inodes| {
      var m := Mapped(sb, st.vol, st.inodes[c.file], c.off, c.create);
      var next := Files(m.vol, st.inodes[c.file := m.ip]);
      RunGrows(sb, next, calls[1..]);
      MappedStep(sb, st.vol, st.inodes, c.file, c.off, c.create);
      if i == 0 {
        MappedReports(sb, st.vol, st.inodes[c.file], c.off, c.create);
        RunInjectiveAndStable(sb, next, calls[1..]);
      } else {
        ReportIsFinal(sb, next, calls[1..], i - 1);
      }
    } else {
      ReportIsFinal(sb, st, calls[1..], i - 1);
    }
  }

  /** Two calls of a run report the same block exactly when they ask for the same logical block of the
      same file; every reported block is marked in the zone map and is no file's indirect block. */
  lemma {:induction false} ReportsInjective(sb: Super, st: Files, calls: seq<Call>, i: nat, j: nat)
    requires MapInv(sb, st.vol, st.inodes) && OnDevice(sb, Run(sb, st, calls).vol.zmap)
    requires i < |calls| && j < |calls|
    requires IsBlock(Reports(sb, st, calls)[i]) && IsBlock(Reports(sb, st, calls)[j])
    ensures Reports(sb, st, calls)[i] == Reports(sb, st, calls)[j] <==>
      calls[i].file == calls[j].file && LogicOf(calls[i].off) == LogicOf(calls[j].off)
    ensures var r := Run(sb, st, calls);
      && Owned(sb, r.vol.zmap, Reports(sb, st, calls)[i].num)
      && forall f: nat | f < |r.inodes| :: r.inodes[f].zones[ZONE_SINGLE] != Reports(sb, st, calls)[i].num
  {
    var r := Run(sb, st, calls);
    RunInjectiveAndStable(sb, st, calls);
    ReportIsFinal(sb, st, calls, i);
    ReportIsFinal(sb, st, calls, j);
    FinalDistinct(sb, r, calls[i].file, LogicOf(calls[i].off), calls[j].file, LogicOf(calls[j].off));
  }

  lemma FinalDistinct(sb: Super, r: Files, f: nat, s: nat, g: nat, t: nat)
    requires MapInv(sb, r.vol, r.inodes) && f < |r.inodes| && g < |r.inodes| && s < LOGICAL && t < LOGICAL
    requires Ref(r.vol.disk, r.inodes[f], s) != NULL_BLOCK
    ensures Ref(r.vol.disk, r.inodes[f], s) == Ref(r.vol.disk, r.inodes[g], t) <==> f == g && s == t
    ensures Owned(sb, r.vol.zmap, Ref(r.vol.disk, r.inodes[f], s))
    ensures forall h: nat | h < |r.inodes| :: r.inodes[h].zones[ZONE_SINGLE] != Ref(r.vol.disk, r.inodes[f], s)
  {
    assert Clash(r.vol.disk, r.inodes, f, s, g, t) ==> f == g && s == t;
    forall h: nat | h < |r.inodes| ensures r.inodes[h].zones[ZONE_SINGLE] != Ref(r.vol.disk, r.inodes[f], s) {
      assert !Clash(r.vol.disk, r.inodes, h, INDIRECT, f, s);
      assert Ref(r.vol.disk, r.inodes[h], INDIRECT) == r.inodes[h].zones[ZONE_SINGLE];
    }
  }

  /** A volume whose data area is zero-filled and files without blocks satisfy the invariant. */
  lemma FreshVolume(sb: Super, vol: Volume, files: seq<DInode>)
    requires Fits(sb, vol)
    requires forall i: nat | sb.firstData as int * 1024 <= i < |vol.disk| && i < sb.nblocks as int * 1024 :: vol.disk[i] == 0
    requires forall f: nat, k: nat | f < |files| && k < 9 :: files[f].zones[k] == NULL_BLOCK
    ensures MapInv(sb, vol, files)
  {
    forall f: nat, s: nat | f < |files| && s < SLOTS ensures Ref(vol.disk, files[f], s) == NULL_BLOCK {
      assert files[f].zones[ZONE_SINGLE] == NULL_BLOCK;
    }
  }

  // ----- freeing

  datatype Freed = Freed(zmap: Bitmap, ok: bool)

  /** The bit of a block, in 16-bit arithmetic. */
  function ZoneBit(sb: Super, num: u16): u16 { (num as int - sb.firstData as int) % 0x1_0000 }

  /** minix_block_free_direct() accepts the block. */
  predicate Freeable(sb: Super, num: u16)
  {
    sb.magic == MAGIC && num != NULL_BLOCK && ZoneBit(sb, num) < sb.nblocks
  }

  /** minix_block_free_direct(): a bit that lies behind the map is cleared there. */
  function FreedDirect(sb: Super, zmap: Bitmap, num: u16): (r: Freed)
    ensures |r.zmap| == |zmap|
  {
    if !Freeable(sb, num) then Freed(zmap, false)
    else Freed(if ZoneBit(sb, num) < |zmap| then zmap[ZoneBit(sb, num) := false] else zmap, true)
  }

  /** A block allocated while fewer than `s_nblocks` bits are set can be freed, and freeing it
      restores the zone map. */
  lemma AllocThenFree(sb: Super, zmap: Bitmap)
    requires sb.magic == MAGIC && 0 < sb.firstData && NSet(zmap) < |zmap|
    requires NSet(zmap) < sb.nblocks && sb.firstData as int + NSet(zmap) < 0x1_0000
    ensures var a := Allocated(sb, zmap);
      a.num != NULL_BLOCK && FreedDirect(sb, a.zmap, a.num) == Freed(zmap, true)
  {
    RoomIffCount(zmap);
    var bit := LeastClear(zmap);
    FirstFreeBound(zmap, bit);
    assert zmap[bit := true][bit := false] == zmap;
  }

  /** Which block numbers make minix_block_free_direct() clear a bit outside a map of `size` bits: those
      `size` or more above the first data block, counted modulo 2^16, but not beyond `s_nblocks`. */
  lemma FreeOutsideIff(sb: Super, num: u16, size: nat)
    requires sb.magic == MAGIC
    ensures Freeable(sb, num) && ZoneBit(sb, num) >= size <==>
      && num != NULL_BLOCK
      && (sb.firstData as int + size <= num < sb.firstData as int + sb.nblocks as int
          || sb.firstData as int + size <= num as int + 0x1_0000 < sb.firstData as int + sb.nblocks as int)
  {}

  /** There are no such numbers exactly when the map has a bit for every block, or lacks only one whose
      number wraps around to the null block. */
  lemma FreeInsideIff(sb: Super, size: nat)
    requires sb.magic == MAGIC
    ensures (forall num: u16 | Freeable(sb, num) :: ZoneBit(sb, num) < size) <==>
      || sb.nblocks <= size
      || (sb.nblocks as int == size + 1 && (sb.firstData as int + size) % 0x1_0000 == NULL_BLOCK as int)
  {
    if size < sb.nblocks {
      forall bit: u16 ensures ZoneBit(sb, BlockOf(sb, bit)) == bit {}
      assert BlockOf(sb, size) == NULL_BLOCK && size + 1 < sb.nblocks ==> BlockOf(sb, size + 1) != NULL_BLOCK;
    }
  }

  /** The block number of a zone bit, in 16-bit arithmetic. */
  function BlockOf(sb: Super, bit: u16): u16 { (sb.firstData as int + bit as int) % 0x1_0000 }

  // ----- what freeing does to the invariant

  /** Freeing an allocated block keeps "free blocks are zero" exactly when that block reads as zeros. */
  lemma FreeKeepsZeroIff(sb: Super, vol: Volume, num: u16)
    requires Fits(sb, vol) && FreeIsZero(sb, vol) && Owned(sb, vol.zmap, num)
    ensures var r := FreedDirect(sb, vol.zmap, num);
      && r.ok
      && (FreeIsZero(sb, vol.(zmap := r.zmap)) <==> ZeroBlock(vol.disk, num))
  {
    var z := FreedDirect(sb, vol.zmap, num).zmap;
    assert ZoneBit(sb, num) == num - sb.firstData;
    forall b: nat | sb.firstData <= b < sb.nblocks && b != num ensures Owned(sb, z, b) == Owned(sb, vol.zmap, b) {}
    assert !Owned(sb, z, num);
  }

  /** A free block that is not zero brings its old contents back as references when it becomes an
      indirect block: the entry of a logical block that the file never had. */
  lemma StaleReference(sb: Super, vol: Volume, ip: DInode, j: nat)
    requires Fits(sb, vol) && ip.zones[ZONE_SINGLE] == NULL_BLOCK && j < SINGLE
    requires Room(sb, vol.zmap, 1)
    ensures var b := Allocated(sb, vol.zmap).num;
      && (b as int + 1) * 1024 <= |vol.disk|
      && var e := Get16(vol.disk, b as int * 1024 + 2 * j);
         e != NULL_BLOCK ==> BlockMapped(sb, vol, ip, DIRECT + j, true).outcome == Block(e)
  {
    AllocatedRoom(sb, vol.zmap);
  }
}
