/**
  Directories (src/sys/fs/vfs/minix/minix.c): entries scattered over the blocks of a file,
  read as a flat table of slots, and that table read as a map from names to inode numbers.
 */
module MinixDir {
  import opened Disk
  import opened MinixFormat
  import opened Bitmaps
  import opened SlotTable
  import opened MinixBlocks

  const EBUSY := -16
  const ENOENT := -2
  const EAGAIN := -11
  const EEXIST := -17
  const ENAMETOOLONG := -36

  /** Entries a directory can hold: 64 in each of its 519 blocks. */
  const CAPACITY := 33216

  // ----- the flat table of entries

  type Table = seq<Slot<CString, u16>>

  function SlotOf(d: Dirent): Slot<CString, u16>
  {
    if d.ino == NULL_INODE then Free else Used(StringIn(d.name), d.ino)
  }

  /** Byte offset of the slot of entry `k` in block `b`: 64 entries of 16 bytes per block. */
  function Place(b: int, k: nat): int { b * 1024 + k % 64 * 16 }

  /** Byte offset of entry `k` on the device. */
  function EntryAt(disk: Image, ip: DInode, k: nat): nat
    requires k < CAPACITY
  {
    Place(Ref(disk, ip, k / 64), k)
  }

  /** Entry `k` lies in a block of the directory that is on the device. */
  predicate Present(disk: Image, ip: DInode, k: nat)
  {
    && k < CAPACITY
    && Ref(disk, ip, k / 64) != NULL_BLOCK
    && (Ref(disk, ip, k / 64) as int + 1) * 1024 <= |disk|
  }

  function Entry(disk: Image, ip: DInode, k: nat): Dirent
    requires Present(disk, ip, k)
  {
    GetDirent(disk[EntryAt(disk, ip, k)..EntryAt(disk, ip, k) + DIRENT_SIZE])
  }

  function Length(ip: DInode): nat { ip.size / 16 }

  /** A directory without holes: every entry below its size is present. */
  ghost predicate HoleFree(disk: Image, ip: DInode)
  {
    forall k: nat | k < Length(ip) :: Present(disk, ip, k)
  }

  function EntrySlot(disk: Image, ip: DInode, k: nat): Slot<CString, u16>
  {
    if Present(disk, ip, k) then SlotOf(Entry(disk, ip, k)) else Free
  }

  function Entries(disk: Image, ip: DInode): (t: Table)
    ensures |t| == Length(ip)
    ensures forall k: nat | k < |t| :: t[k] == EntrySlot(disk, ip, k)
  {
    seq(Length(ip), k requires 0 <= k => EntrySlot(disk, ip, k))
  }

  /** Index of the last free slot, or -1. */
  function LastFree(t: Table): (i: int)
    ensures -1 <= i < |t|
    ensures i >= 0 ==> t[i].Free?
    ensures forall j: nat | i < j < |t| :: t[j].Used?
  {
    if t == [] then -1
    else if t[|t| - 1].Free? then |t| - 1
    else LastFree(t[..|t| - 1])
  }

  // ----- the invariant over all files of the volume

  ghost predicate DirOk(disk: Image, ip: DInode)
  {
    IsDir(ip.mode) ==> HoleFree(disk, ip) && Distinct(Entries(disk, ip))
  }

  ghost predicate DirsOk(disk: Image, files: seq<DInode>)
  {
    forall f: nat {:trigger DirOk(disk, files[f])} | f < |files| :: DirOk(disk, files[f])
  }

  /** The inode table ends before the first data block. */
  predicate InodesFit(sb: Super)
  {
    2 + sb.imapBlocks as int + sb.bmapBlocks as int + (sb.ninodes as int + 31) / 32 <= sb.firstData
  }

  ghost predicate FsInv(sb: Super, vol: Volume, files: seq<DInode>)
  {
    && MapInv(sb, vol, files) && DirsOk(vol.disk, files)
    && InodesFit(sb) && CAPACITY * 16 <= sb.maxSize
  }

  /** Entry `k` of file `f` belongs to an owned block. */
  lemma PresentOwned(sb: Super, vol: Volume, files: seq<DInode>, f: nat, k: nat)
    requires RefsOwned(sb, vol, files) && Fits(sb, vol) && f < |files| && k < CAPACITY
    ensures Present(vol.disk, files[f], k) <==> Ref(vol.disk, files[f], k / 64) != NULL_BLOCK
    ensures Present(vol.disk, files[f], k) ==> Owned(sb, vol.zmap, Ref(vol.disk, files[f], k / 64))
  {
    assert Ref(vol.disk, files[f], k / 64) != NULL_BLOCK ==>
        Owned(sb, vol.zmap, Ref(vol.disk, files[f], k / 64));
  }

  // ----- writes that leave the references alone

  /** No indirect block and no unallocated block was written. */
  ghost predicate DataOnly(sb: Super, vol: Volume, files: seq<DInode>, disk': Image)
  {
    && |disk'| == |vol.disk|
    && (forall f: nat | f < |files| :: SameBlock(vol.disk, disk', files[f].zones[ZONE_SINGLE]))
    && (forall b: nat | sb.firstData <= b < sb.nblocks && !Owned(sb, vol.zmap, b) :: SameBlock(vol.disk, disk', b))
  }

  lemma SameRefs(disk: Image, disk': Image, ip: DInode, s: nat)
    requires |disk'| == |disk| && SameBlock(disk, disk', ip.zones[ZONE_SINGLE]) && s < SLOTS
    ensures Ref(disk', ip, s) == Ref(disk, ip, s)
  {
    var ind: int := ip.zones[ZONE_SINGLE];
    if DIRECT <= s < INDIRECT && ind != NULL_BLOCK && (ind + 1) * 1024 <= |disk| {
      var at := ind * 1024 + 2 * (s - DIRECT);
      assert InBlock(ind, at) && InBlock(ind, at + 1);
    }
  }

  lemma DataOnlyKeeps(sb: Super, vol: Volume, files: seq<DInode>, disk': Image)
    requires MapInv(sb, vol, files) && DataOnly(sb, vol, files, disk')
    ensures MapInv(sb, vol.(disk := disk'), files)
    ensures forall f: nat, s: nat | f < |files| && s < SLOTS :: Ref(disk', files[f], s) == Ref(vol.disk, files[f], s)
  {
    forall f: nat, s: nat | f < |files| && s < SLOTS ensures Ref(disk', files[f], s) == Ref(vol.disk, files[f], s) {
      SameRefs(vol.disk, disk', files[f], s);
    }
    forall f: nat, s: nat, g: nat, t: nat | Clash(disk', files, f, s, g, t) ensures f == g && s == t {
      assert Clash(vol.disk, files, f, s, g, t);
    }
    forall b: nat | sb.firstData <= b < sb.nblocks && !Owned(sb, vol.zmap, b) ensures ZeroBlock(disk', b) {
      assert ZeroBlock(vol.disk, b) && SameBlock(vol.disk, disk', b);
    }
  }

  /** A write inside the block of an entry is a data-only write. */
  lemma EntryWriteIsData(sb: Super, vol: Volume, files: seq<DInode>, f: nat, k: nat, buf: Image)
    requires MapInv(sb, vol, files) && f < |files| && Present(vol.disk, files[f], k) && |buf| == DIRENT_SIZE
    ensures DataOnly(sb, vol, files, Splice(vol.disk, EntryAt(vol.disk, files[f], k), buf))
  {
    var b := Ref(vol.disk, files[f], k / 64);
    var at := EntryAt(vol.disk, files[f], k);
    var disk' := Splice(vol.disk, at, buf);
    PresentOwned(sb, vol, files, f, k);
    assert forall i: nat | i < |disk'| && !InBlock(b, i) :: disk'[i] == vol.disk[i];
    forall g: nat | g < |files| ensures SameBlock(vol.disk, disk', files[g].zones[ZONE_SINGLE]) {
      assert Ref(vol.disk, files[g], INDIRECT) == files[g].zones[ZONE_SINGLE];
      assert !Clash(vol.disk, files, g, INDIRECT, f, k / 64);
    }
  }

  /** Distinct entries occupy disjoint bytes. */
  lemma EntriesApart(disk: Image, files: seq<DInode>, f: nat, k: nat, g: nat, j: nat)
    requires RefsDistinct(disk, files) && f < |files| && g < |files|
    requires Present(disk, files[f], k) && Present(disk, files[g], j) && !(f == g && k == j)
    ensures var at, lo := EntryAt(disk, files[f], k), EntryAt(disk, files[g], j);
      lo + DIRENT_SIZE <= at || at + DIRENT_SIZE <= lo
  {
    var b, c := Ref(disk, files[f], k / 64), Ref(disk, files[g], j / 64);
    if b == c {
      assert Clash(disk, files, f, k / 64, g, j / 64);
      if k % 64 == j % 64 { SplitIndex(k, j); }
    }
    PlacesApart(b, k % 64, c, j % 64);
  }

  lemma SplitIndex(k: nat, j: nat)
    requires k / 64 == j / 64 && k % 64 == j % 64
    ensures k == j
  {}

  lemma PlacesApart(b: int, x: int, c: int, y: int)
    requires 0 <= x < 64 && 0 <= y < 64 && !(b == c && x == y)
    ensures b * 1024 + x * 16 + 16 <= c * 1024 + y * 16 || c * 1024 + y * 16 + 16 <= b * 1024 + x * 16
  {
    var u, v := b * 64 + x, c * 64 + y;
    assert u != v by { if b < c { assert u < v; } else if c < b { assert v < u; } }
    assert b * 1024 + x * 16 == 16 * u && c * 1024 + y * 16 == 16 * v;
  }

  lemma ReadBack(disk: Image, at: nat, d: Dirent)
    requires at + DIRENT_SIZE <= |disk|
    ensures GetDirent(Splice(disk, at, PutDirent(d))[at..at + DIRENT_SIZE]) == d
  {
    SpliceSlice(disk, at, PutDirent(d), at, at + DIRENT_SIZE);
    DirentRoundTrip(d);
  }

  /** A data-only write keeps every entry present and in place. */
  lemma DataKeepsPlace(sb: Super, vol: Volume, files: seq<DInode>, disk': Image, g: nat, j: nat)
    requires DataOnly(sb, vol, files, disk') && g < |files| && Present(vol.disk, files[g], j)
    ensures Present(disk', files[g], j) && EntryAt(disk', files[g], j) == EntryAt(vol.disk, files[g], j)
  {
    SameRefs(vol.disk, disk', files[g], j / 64);
  }

  /** Storing an entry changes that entry and no other entry of any file. */
  lemma EntryWrite(sb: Super, vol: Volume, files: seq<DInode>, f: nat, k: nat, d: Dirent, g: nat, j: nat)
    requires MapInv(sb, vol, files) && f < |files| && Present(vol.disk, files[f], k)
    requires g < |files| && Present(vol.disk, files[g], j)
    ensures var disk' := Splice(vol.disk, EntryAt(vol.disk, files[f], k), PutDirent(d));
      && Present(disk', files[g], j)
      && Entry(disk', files[g], j) == if g == f && j == k then d else Entry(vol.disk, files[g], j)
  {
    var at, lo := EntryAt(vol.disk, files[f], k), EntryAt(vol.disk, files[g], j);
    EntryWriteIsData(sb, vol, files, f, k, PutDirent(d));
    DataKeepsPlace(sb, vol, files, Splice(vol.disk, at, PutDirent(d)), g, j);
    if g == f && j == k {
      ReadBack(vol.disk, at, d);
    } else {
      EntriesApart(vol.disk, files, f, k, g, j);
      SpliceSlice(vol.disk, at, PutDirent(d), lo, lo + DIRENT_SIZE);
    }
  }

  /** `r` is what a call of minix_block_map() for file `f` may do: established references stay,
      and only the indirect block of `f` is written. */
  ghost predicate GoodMapping(sb: Super, vol: Volume, files: seq<DInode>, f: nat, r: Mapping)
  {
    && f < |files|
    && MapInv(sb, r.vol, files[f := r.ip])
    && Stable(vol.disk, files, r.vol.disk, files[f := r.ip])
    && Framed(vol, files[f], r)
  }

  lemma MappedIsGood(sb: Super, vol: Volume, files: seq<DInode>, f: nat, off: nat, create: bool)
    requires MapInv(sb, vol, files) && f < |files|
    requires OnDevice(sb, Mapped(sb, vol, files[f], off, create).vol.zmap)
    ensures GoodMapping(sb, vol, files, f, Mapped(sb, vol, files[f], off, create))
  {
    MappedStep(sb, vol, files, f, off, create);
    MappedFrame(sb, vol, files[f], off, create);
  }

  /** Mapping blocks for one file moves no entry of any file and changes none. */
  lemma MappingKeepsEntry(sb: Super, vol: Volume, files: seq<DInode>, f: nat, r: Mapping, g: nat, j: nat)
    requires GoodMapping(sb, vol, files, f, r) && g < |files| && Present(vol.disk, files[g], j)
    ensures var ip := files[f := r.ip][g];
      Present(r.vol.disk, ip, j) && Entry(r.vol.disk, ip, j) == Entry(vol.disk, files[g], j)
  {
    var files' := files[f := r.ip];
    var l := j / 64;
    assert Ref(r.vol.disk, files'[g], l) == Ref(vol.disk, files[g], l);
    assert !Clash(r.vol.disk, files', f, INDIRECT, g, l);
    SameSlice(vol.disk, r.vol.disk, EntryAt(vol.disk, files[g], j), r.ip.zones[ZONE_SINGLE], Ref(vol.disk, files[g], l));
  }

  lemma SameSlice(disk: Image, disk': Image, at: nat, other: int, b: int)
    requires |disk'| == |disk| && at + DIRENT_SIZE <= |disk|
    requires b * 1024 <= at && at + DIRENT_SIZE <= (b + 1) * 1024 && other != b
    requires forall i: nat | i < |disk| && !InBlock(other, i) :: disk'[i] == disk[i]
    ensures disk'[at..at + DIRENT_SIZE] == disk[at..at + DIRENT_SIZE]
  {
    forall i: nat | at <= i < at + DIRENT_SIZE ensures disk'[i] == disk[i] { assert !InBlock(other, i); }
  }

  /** Two inodes that agree on their entries below a length have the same table up to it. */
  ghost predicate SameEntries(disk: Image, ip: DInode, disk': Image, ip': DInode)
  {
    forall k: nat | k < Length(ip) && Present(disk, ip, k) ::
      Present(disk', ip', k) && Entry(disk', ip', k) == Entry(disk, ip, k)
  }

  lemma SameTable(disk: Image, ip: DInode, disk': Image, ip': DInode)
    requires HoleFree(disk, ip) && SameEntries(disk, ip, disk', ip') && ip'.size == ip.size
    ensures HoleFree(disk', ip') && Entries(disk', ip') == Entries(disk, ip)
  {
    assert forall k: nat | k < Length(ip) :: Present(disk, ip, k);
  }

  lemma MappingKeepsTable(sb: Super, vol: Volume, files: seq<DInode>, f: nat, r: Mapping, g: nat)
    requires GoodMapping(sb, vol, files, f, r) && g < |files| && HoleFree(vol.disk, files[g])
    ensures var ip := files[f := r.ip][g];
      HoleFree(r.vol.disk, ip) && Entries(r.vol.disk, ip) == Entries(vol.disk, files[g])
  {
    var ip := files[f := r.ip][g];
    forall k: nat | k < Length(files[g]) && Present(vol.disk, files[g], k)
      ensures Present(r.vol.disk, ip, k) && Entry(r.vol.disk, ip, k) == Entry(vol.disk, files[g], k)
    {
      MappingKeepsEntry(sb, vol, files, f, r, g, k);
    }
    SameTable(vol.disk, files[g], r.vol.disk, ip);
  }

  /** The tables of all directories but `f` are as before. */
  ghost predicate OthersSame(disk: Image, files: seq<DInode>, disk': Image, files': seq<DInode>, f: nat)
  {
    && |files'| == |files|
    && forall g: nat | g < |files| && g != f && IsDir(files[g].mode) ::
         files'[g].mode == files[g].mode && Entries(disk', files'[g]) == Entries(disk, files[g])
  }

  /** Mapping blocks is invisible in every directory of the volume. */
  lemma MappingKeepsDirs(sb: Super, vol: Volume, files: seq<DInode>, f: nat, r: Mapping)
    requires FsInv(sb, vol, files) && GoodMapping(sb, vol, files, f, r)
    ensures FsInv(sb, r.vol, files[f := r.ip])
    ensures IsDir(files[f].mode) ==> Entries(r.vol.disk, r.ip) == Entries(vol.disk, files[f])
    ensures OthersSame(vol.disk, files, r.vol.disk, files[f := r.ip], f)
  {
    var files' := files[f := r.ip];
    forall g: nat | g < |files'|
      ensures DirOk(r.vol.disk, files'[g]) && files'[g].mode == files[g].mode
      ensures IsDir(files[g].mode) ==> Entries(r.vol.disk, files'[g]) == Entries(vol.disk, files[g])
    {
      if IsDir(files[g].mode) {
        assert DirOk(vol.disk, files[g]);
        MappingKeepsTable(sb, vol, files, f, r, g);
      }
    }
  }

  // ----- adding an entry

  /** What a directory operation reports: a return code, a failed assertion or panic, or a code
      computed from uninitialised memory. */
  datatype Ret = Code(code: int) | Crash | Undefined

  datatype DirResult = DirResult(vol: Volume, ip: DInode, ret: Ret)

  /** The entry that minix_dirent_add() builds. */
  function NewEntry(name: CString, num: u16): (d: Dirent)
    requires |name| <= NAME_MAX
    ensures num != NULL_INODE ==> SlotOf(d) == Used(name, num)
  {
    Dirent(num, Pad(name))
  }

  /** The tail of minix_dirent_add(): reads the slot at `off`, fills it and writes it back. */
  function Stored(vol: Volume, ip: DInode, off: nat, d: Dirent): DirResult
  {
    if off + DIRENT_SIZE > |vol.disk| then DirResult(vol, ip, Crash)
    else
      DirResult(vol.(disk := Splice(vol.disk, off, PutDirent(d))),
                ip.(nlinks := (ip.nlinks as int + 1) % 256, time := 0),
                Code(0))
  }

  /** minix_dirent_add() on a directory without holes. */
  function Added(sb: Super, vol: Volume, ip: DInode, name: CString, num: u16): DirResult
  {
    if !IsDir(ip.mode) then DirResult(vol, ip, Code(EINVAL))
    else if |name| > NAME_MAX then DirResult(vol, ip, Code(ENAMETOOLONG))
    else if num == NULL_INODE then DirResult(vol, ip, Code(EINVAL))
    else
      var t := Entries(vol.disk, ip);
      var n := |t|;
      if Find(t, name) < n then DirResult(vol, ip, Code(EAGAIN))
      else if LastFree(t) >= 0 then
        if Present(vol.disk, ip, LastFree(t))
        then Stored(vol, ip, EntryAt(vol.disk, ip, LastFree(t)), NewEntry(name, num))
        else DirResult(vol, ip, Undefined)
      else Grown(NextBlock(sb, vol, ip), Length(ip), NewEntry(name, num))
  }

  /** Mapping the block of the entry that would come next. */
  function NextBlock(sb: Super, vol: Volume, ip: DInode): Mapping
  {
    Mapped(sb, vol, ip, Length(ip) * 16, true)
  }

  /** The inode after an entry was appended to it. */
  function Enlarged(ip: DInode): DInode
  {
    ip.(size := (ip.size as int + DIRENT_SIZE) % 0x1_0000_0000)
  }

  /** The new entry `n` goes to the block just mapped for it, whatever that mapping returned. */
  function Grown(m: Mapping, n: nat, d: Dirent): DirResult
  {
    match m.outcome
    case Block(b) => Stored(m.vol, Enlarged(m.ip), Place(b, n), d)
    case Panic => DirResult(m.vol, m.ip, Crash)
    case Garbage => DirResult(m.vol, m.ip, Undefined)
  }

  /** Number of blocks an addition has to allocate. */
  function AddNeed(disk: Image, ip: DInode): nat
    requires Length(ip) < CAPACITY || LastFree(Entries(disk, ip)) >= 0
  {
    if LastFree(Entries(disk, ip)) >= 0 then 0 else Need(disk, ip, Length(ip) / 64)
  }

  /** There is a free slot, or room on the device for the blocks a new slot needs. */
  predicate CanAdd(sb: Super, vol: Volume, ip: DInode)
  {
    && (Length(ip) < CAPACITY || LastFree(Entries(vol.disk, ip)) >= 0)
    && Room(sb, vol.zmap, AddNeed(vol.disk, ip))
  }

  /** Writing entry `k` of directory `f` updates slot `k` of its table; every other table of the
      volume, and every reference, stays as it is. */
  lemma EntryStored(sb: Super, vol: Volume, files: seq<DInode>, f: nat, k: nat, d: Dirent)
    requires MapInv(sb, vol, files) && f < |files| && Present(vol.disk, files[f], k)
    ensures var disk' := Splice(vol.disk, EntryAt(vol.disk, files[f], k), PutDirent(d));
      && MapInv(sb, vol.(disk := disk'), files)
      && (forall g: nat | g < |files| && HoleFree(vol.disk, files[g]) ::
            && HoleFree(disk', files[g])
            && (g != f ==> Entries(disk', files[g]) == Entries(vol.disk, files[g])))
      && (HoleFree(vol.disk, files[f]) && k < Length(files[f]) ==>
            Entries(disk', files[f]) == Entries(vol.disk, files[f])[k := SlotOf(d)])
  {
    var disk' := Splice(vol.disk, EntryAt(vol.disk, files[f], k), PutDirent(d));
    EntryWriteIsData(sb, vol, files, f, k, PutDirent(d));
    DataOnlyKeeps(sb, vol, files, disk');
    forall g: nat, j: nat | g < |files| && Present(vol.disk, files[g], j)
      ensures Present(disk', files[g], j)
      ensures Entry(disk', files[g], j) == if g == f && j == k then d else Entry(vol.disk, files[g], j)
    {
      EntryWrite(sb, vol, files, f, k, d, g, j);
    }
  }

  /** The invariant does not look at the attributes of an inode. */
  lemma SameZones(sb: Super, vol: Volume, files: seq<DInode>, f: nat, ip: DInode)
    requires MapInv(sb, vol, files) && f < |files| && ip.zones == files[f].zones
    ensures MapInv(sb, vol, files[f := ip])
    ensures forall k: nat :: Present(vol.disk, ip, k) == Present(vol.disk, files[f], k)
    ensures forall k: nat | Present(vol.disk, ip, k) :: Entry(vol.disk, ip, k) == Entry(vol.disk, files[f], k)
  {
    var files' := files[f := ip];
    forall g: nat, s: nat | g < |files| && s < SLOTS ensures Ref(vol.disk, files'[g], s) == Ref(vol.disk, files[g], s) {}
    forall g: nat, s: nat, h: nat, t: nat | Clash(vol.disk, files', g, s, h, t) ensures g == h && s == t {
      assert Clash(vol.disk, files, g, s, h, t);
    }
  }

  lemma DirsAfter(disk: Image, files: seq<DInode>, disk': Image, files': seq<DInode>, f: nat)
    requires DirsOk(disk, files) && |files'| == |files| && f < |files| && DirOk(disk', files'[f])
    requires forall g: nat | g < |files| && g != f :: files'[g] == files[g]
    requires forall g: nat | g < |files| && g != f && HoleFree(disk, files[g]) ::
      HoleFree(disk', files[g]) && Entries(disk', files[g]) == Entries(disk, files[g])
    ensures DirsOk(disk', files') && OthersSame(disk, files, disk', files', f)
  {
    forall g: nat | g < |files| && g != f && IsDir(files[g].mode)
      ensures DirOk(disk', files'[g]) && Entries(disk', files'[g]) == Entries(disk, files[g])
    {
      assert DirOk(disk, files[g]);
    }
  }

  lemma InvAfter(sb: Super, vol: Volume, files: seq<DInode>, f: nat, k: nat, d: Dirent, ip: DInode)
    requires FsInv(sb, vol, files) && f < |files| && Present(vol.disk, files[f], k) && ip.zones == files[f].zones
    requires DirOk(Splice(vol.disk, EntryAt(vol.disk, files[f], k), PutDirent(d)), ip)
    ensures var disk' := Splice(vol.disk, EntryAt(vol.disk, files[f], k), PutDirent(d));
      && FsInv(sb, vol.(disk := disk'), files[f := ip])
      && OthersSame(vol.disk, files, disk', files[f := ip], f)
  {
    var disk' := Splice(vol.disk, EntryAt(vol.disk, files[f], k), PutDirent(d));
    EntryStored(sb, vol, files, f, k, d);
    SameZones(sb, vol.(disk := disk'), files, f, ip);
    DirsAfter(vol.disk, files, disk', files[f := ip], f);
  }

  lemma SamePlace(disk: Image, ip: DInode, ip': DInode, k: nat)
    requires ip.zones == ip'.zones && Present(disk, ip, k)
    ensures Present(disk, ip', k) && Entry(disk, ip', k) == Entry(disk, ip, k)
  {}

  /** Rewriting entry `k` of a directory rewrites slot `k` of its table. */
  lemma TableUpdated(sb: Super, vol: Volume, files: seq<DInode>, f: nat, k: nat, d: Dirent, ip: DInode)
    requires MapInv(sb, vol, files) && f < |files| && HoleFree(vol.disk, files[f]) && k < Length(files[f])
    requires ip.zones == files[f].zones && ip.size == files[f].size
    ensures Present(vol.disk, files[f], k)
    ensures var disk' := Splice(vol.disk, EntryAt(vol.disk, files[f], k), PutDirent(d));
      HoleFree(disk', ip) && Entries(disk', ip) == Entries(vol.disk, files[f])[k := SlotOf(d)]
  {
    assert Present(vol.disk, files[f], k);
    var disk' := Splice(vol.disk, EntryAt(vol.disk, files[f], k), PutDirent(d));
    var t := Entries(vol.disk, files[f])[k := SlotOf(d)];
    forall j: nat | j < Length(ip) ensures Present(disk', ip, j) && Entries(disk', ip)[j] == t[j] {
      assert Present(vol.disk, files[f], j);
      EntryWrite(sb, vol, files, f, k, d, f, j);
      SamePlace(disk', files[f], ip, j);
    }
  }

  lemma {:induction false} AddedInFree(sb: Super, vol: Volume, files: seq<DInode>, f: nat, name: CString, num: u16)
    requires FsInv(sb, vol, files) && f < |files| && IsDir(files[f].mode) && |name| <= NAME_MAX && num != NULL_INODE
    requires var t := Entries(vol.disk, files[f]); Find(t, name) == |t| && LastFree(t) >= 0
    ensures var r := Added(sb, vol, files[f], name, num);
      && r.ret == Code(0) && r.vol.zmap == vol.zmap
      && FsInv(sb, r.vol, files[f := r.ip])
      && OthersSame(vol.disk, files, r.vol.disk, files[f := r.ip], f)
      && Entries(r.vol.disk, r.ip) == Entries(vol.disk, files[f])[LastFree(Entries(vol.disk, files[f])) := Used(name, num)]
  {
    var ip := files[f];
    var t := Entries(vol.disk, ip);
    var k := LastFree(t);
    var r := Added(sb, vol, ip, name, num);
    var d := NewEntry(name, num);
    assert DirOk(vol.disk, ip) && Present(vol.disk, ip, k);
    TableUpdated(sb, vol, files, f, k, d, r.ip);
    FindIsLookup(t, name);
    StoreFree(t, k, name, num);
    InvAfter(sb, vol, files, f, k, d, r.ip);
  }

  lemma EntryIndex(n: nat)
    ensures n * 16 / 1024 == n / 64
  {}

  lemma TableAtEnd(disk: Image, ip: DInode, disk': Image, ip': DInode, d: Dirent)
    requires var n := Length(ip);
      && Length(ip') == n + 1
      && forall k: nat | k <= n :: Present(disk, ip, k) && Present(disk', ip', k)
                                && Entry(disk', ip', k) == if k == n then d else Entry(disk, ip, k)
    ensures HoleFree(disk', ip') && Entries(disk', ip') == Entries(disk, ip) + [SlotOf(d)]
  {
    var n := Length(ip);
    forall k: nat | k <= n ensures Present(disk', ip', k) && Entries(disk', ip')[k] == (Entries(disk, ip) + [SlotOf(d)])[k] {
      assert Present(disk, ip, k);
    }
  }

  lemma EnlargedLength(ip: DInode)
    requires Length(ip) < CAPACITY
    ensures Length(Enlarged(ip)) == Length(ip) + 1
  {}

  lemma TableStored(sb: Super, vol: Volume, files: seq<DInode>, f: nat, d: Dirent, ip: DInode)
    requires MapInv(sb, vol, files) && f < |files| && HoleFree(vol.disk, files[f])
    requires Present(vol.disk, files[f], Length(files[f]))
    requires ip.zones == files[f].zones && Length(ip) == Length(files[f]) + 1
    ensures var disk' := Splice(vol.disk, EntryAt(vol.disk, files[f], Length(files[f])), PutDirent(d));
      HoleFree(disk', ip) && Entries(disk', ip) == Entries(vol.disk, files[f]) + [SlotOf(d)]
  {
    var n := Length(files[f]);
    var disk' := Splice(vol.disk, EntryAt(vol.disk, files[f], n), PutDirent(d));
    forall k: nat | k <= n
      ensures Present(vol.disk, files[f], k) && Present(disk', ip, k)
      ensures Entry(disk', ip, k) == if k == n then d else Entry(vol.disk, files[f], k)
    {
      EntryWrite(sb, vol, files, f, n, d, f, k);
      SamePlace(disk', files[f], ip, k);
    }
    TableAtEnd(vol.disk, files[f], disk', ip, d);
  }

  /** Storing entry `n` of a directory of `n` entries and enlarging it appends to its table. */
  lemma StoreAtEnd(sb: Super, vol: Volume, files: seq<DInode>, f: nat, d: Dirent)
    requires FsInv(sb, vol, files) && f < |files| && IsDir(files[f].mode)
    requires SlotOf(d).Used? && Find(Entries(vol.disk, files[f]), SlotOf(d).key) == Length(files[f])
    requires Present(vol.disk, files[f], Length(files[f]))
    ensures var r := Stored(vol, Enlarged(files[f]), EntryAt(vol.disk, files[f], Length(files[f])), d);
      && r.ret == Code(0) && r.vol.zmap == vol.zmap
      && FsInv(sb, r.vol, files[f := r.ip])
      && OthersSame(vol.disk, files, r.vol.disk, files[f := r.ip], f)
      && Entries(r.vol.disk, r.ip) == Entries(vol.disk, files[f]) + [SlotOf(d)]
  {
    var t := Entries(vol.disk, files[f]);
    var r := Stored(vol, Enlarged(files[f]), EntryAt(vol.disk, files[f], Length(files[f])), d);
    EnlargedLength(files[f]);
    assert DirOk(vol.disk, files[f]);
    TableStored(sb, vol, files, f, d, r.ip);
    FindIsLookup(t, SlotOf(d).key);
    Append(t, SlotOf(d).key, SlotOf(d).value);
    InvAfter(sb, vol, files, f, Length(files[f]), d, r.ip);
  }

  lemma OthersTransitive(d0: Image, fs0: seq<DInode>, d1: Image, fs1: seq<DInode>, d2: Image, fs2: seq<DInode>, f: nat)
    requires OthersSame(d0, fs0, d1, fs1, f) && OthersSame(d1, fs1, d2, fs2, f)
    ensures OthersSame(d0, fs0, d2, fs2, f)
  {}

  /** A mapping that makes the next entry present and keeps the volume sound. */
  ghost predicate ReadyToStore(sb: Super, vol: Volume, files: seq<DInode>, f: nat, m: Mapping)
  {
    && f < |files|
    && var n := Length(files[f]);
    && m.outcome.Block? && SameAttributes(files[f], m.ip)
    && Present(m.vol.disk, m.ip, n)
    && EntryAt(m.vol.disk, m.ip, n) == Place(m.outcome.num, n)
    && FsInv(sb, m.vol, files[f := m.ip])
    && Entries(m.vol.disk, m.ip) == Entries(vol.disk, files[f])
    && OthersSame(vol.disk, files, m.vol.disk, files[f := m.ip], f)
  }

  /** `r` is the outcome of an addition that appended a slot to the table of `f`. */
  ghost predicate Appended(sb: Super, vol: Volume, files: seq<DInode>, f: nat, s: Slot<CString, u16>, r: DirResult)
  {
    && f < |files|
    && r.ret == Code(0)
    && FsInv(sb, r.vol, files[f := r.ip])
    && OthersSame(vol.disk, files, r.vol.disk, files[f := r.ip], f)
    && Entries(r.vol.disk, r.ip) == Entries(vol.disk, files[f]) + [s]
  }

  lemma GrownAppends(sb: Super, vol: Volume, files: seq<DInode>, f: nat, d: Dirent, m: Mapping)
    requires ReadyToStore(sb, vol, files, f, m) && IsDir(files[f].mode)
    requires SlotOf(d).Used? && Find(Entries(vol.disk, files[f]), SlotOf(d).key) == Length(files[f])
    ensures var r := Grown(m, Length(files[f]), d);
      Appended(sb, vol, files, f, SlotOf(d), r) && r.vol.zmap == m.vol.zmap
  {
    var files1 := files[f := m.ip];
    var r := Grown(m, Length(files[f]), d);
    StoreAtEnd(sb, m.vol, files1, f, d);
    assert files1[f := r.ip] == files[f := r.ip];
    OthersTransitive(vol.disk, files, m.vol.disk, files1, r.vol.disk, files[f := r.ip], f);
  }

  /** With room on the device, mapping the block of the next entry prepares the store. */
  lemma MappedReady(sb: Super, vol: Volume, files: seq<DInode>, f: nat)
    requires FsInv(sb, vol, files) && f < |files| && IsDir(files[f].mode)
    requires LastFree(Entries(vol.disk, files[f])) < 0 && CanAdd(sb, vol, files[f])
    ensures var m := NextBlock(sb, vol, files[f]);
      ReadyToStore(sb, vol, files, f, m) && NSet(m.vol.zmap) == NSet(vol.zmap) + AddNeed(vol.disk, files[f])
  {
    var l := Length(files[f]) / 64;
    var m := BlockMapped(sb, vol, files[f], l, true);
    NextBlockIs(sb, vol, files[f]);
    RoomDelivers(sb, vol, files, f, l);
    BlockMappedReports(sb, vol, files[f], l, true);
    BlockMappedStep(sb, vol, files, f, l, true);
    BlockMappedFrame(sb, vol, files[f], l, true);
    MappingKeepsDirs(sb, vol, files, f, m);
  }

  lemma NextBlockIs(sb: Super, vol: Volume, ip: DInode)
    requires sb.magic == MAGIC && CAPACITY * DIRENT_SIZE <= sb.maxSize <= 0x1_0000 * 1024 && Length(ip) < CAPACITY
    ensures NextBlock(sb, vol, ip) == BlockMapped(sb, vol, ip, Length(ip) / 64, true)
  {
    EntryIndex(Length(ip));
    MappedIsBlock(sb, vol, ip, Length(ip) * 16, true);
  }

  lemma {:induction false} AddedAtEnd(sb: Super, vol: Volume, files: seq<DInode>, f: nat, name: CString, num: u16)
    requires FsInv(sb, vol, files) && f < |files| && IsDir(files[f].mode) && |name| <= NAME_MAX && num != NULL_INODE
    requires var t := Entries(vol.disk, files[f]); Find(t, name) == |t| && LastFree(t) < 0
    requires CanAdd(sb, vol, files[f])
    ensures var r := Added(sb, vol, files[f], name, num);
      && Appended(sb, vol, files, f, Used(name, num), r)
      && NSet(r.vol.zmap) == NSet(vol.zmap) + AddNeed(vol.disk, files[f])
  {
    MappedReady(sb, vol, files, f);
    GrownAppends(sb, vol, files, f, NewEntry(name, num), NextBlock(sb, vol, files[f]));
  }

  /** minix_dirent_add() on any directory of a sound volume with room: it fails exactly on a
      name that is present, leaving everything as it was; otherwise it adds exactly that pair,
      and no other directory of the volume changes. */
  lemma AddExtendsMap(sb: Super, vol: Volume, files: seq<DInode>, f: nat, name: CString, num: u16)
    requires FsInv(sb, vol, files) && f < |files| && IsDir(files[f].mode) && |name| <= NAME_MAX && num != NULL_INODE
    requires CanAdd(sb, vol, files[f])
    ensures var r := Added(sb, vol, files[f], name, num);
      var before, after := AsMap(Entries(vol.disk, files[f])), AsMap(Entries(r.vol.disk, r.ip));
      && FsInv(sb, r.vol, files[f := r.ip])
      && OthersSame(vol.disk, files, r.vol.disk, files[f := r.ip], f)
      && (name in before ==> r == DirResult(vol, files[f], Code(EAGAIN)))
      && (name !in before ==> r.ret == Code(0) && after == before[name := num])
      && NSet(r.vol.zmap) <= NSet(vol.zmap) + AddNeed(vol.disk, files[f])
  {
    if name in AsMap(Entries(vol.disk, files[f])) {
      AddKnownName(sb, vol, files, f, name, num);
    } else {
      AddNewName(sb, vol, files, f, name, num);
    }
  }

  lemma AddKnownName(sb: Super, vol: Volume, files: seq<DInode>, f: nat, name: CString, num: u16)
    requires FsInv(sb, vol, files) && f < |files| && IsDir(files[f].mode) && |name| <= NAME_MAX && num != NULL_INODE
    requires name in AsMap(Entries(vol.disk, files[f]))
    ensures var r := Added(sb, vol, files[f], name, num);
      && r == DirResult(vol, files[f], Code(EAGAIN)) && files[f := r.ip] == files
      && OthersSame(vol.disk, files, r.vol.disk, files[f := r.ip], f)
  {
    assert DirOk(vol.disk, files[f]);
    FindIsLookup(Entries(vol.disk, files[f]), name);
  }

  lemma AddNewName(sb: Super, vol: Volume, files: seq<DInode>, f: nat, name: CString, num: u16)
    requires FsInv(sb, vol, files) && f < |files| && IsDir(files[f].mode) && |name| <= NAME_MAX && num != NULL_INODE
    requires CanAdd(sb, vol, files[f]) && name !in AsMap(Entries(vol.disk, files[f]))
    ensures var r := Added(sb, vol, files[f], name, num);
      && FsInv(sb, r.vol, files[f := r.ip])
      && OthersSame(vol.disk, files, r.vol.disk, files[f := r.ip], f)
      && r.ret == Code(0) && AsMap(Entries(r.vol.disk, r.ip)) == AsMap(Entries(vol.disk, files[f]))[name := num]
      && NSet(r.vol.zmap) <= NSet(vol.zmap) + AddNeed(vol.disk, files[f])
  {
    var t := Entries(vol.disk, files[f]);
    assert DirOk(vol.disk, files[f]);
    FindIsLookup(t, name);
    if LastFree(t) >= 0 {
      AddedInFree(sb, vol, files, f, name, num);
      StoreFree(t, LastFree(t), name, num);
    } else {
      AddedAtEnd(sb, vol, files, f, name, num);
      Append(t, name, num);
    }
  }

  // ----- adding without room

  /** A directory without holes needs another block only at a block boundary. */
  lemma NeedAtBoundary(disk: Image, ip: DInode)
    requires HoleFree(disk, ip) && Length(ip) < CAPACITY && Need(disk, ip, Length(ip) / 64) > 0
    ensures Length(ip) % 64 == 0
  {
    var n := Length(ip);
    assert n > 0 ==> Present(disk, ip, n - 1);
  }

  /** The mapping `m` reports the block `p`, which nothing else depends on. */
  ghost predicate Handed(vol: Volume, ip: DInode, m: Mapping, p: u16)
  {
    && m.outcome == Block(p) && |m.vol.disk| == |vol.disk| && m.ip.size == ip.size && Length(ip) < CAPACITY
    && p == Ref(m.vol.disk, m.ip, Length(ip) / 64)
    && (p == NULL_BLOCK ==> m.ip.zones[ZONE_SINGLE] != NULL_BLOCK || Length(ip) / 64 < DIRECT)
  }

  /** With one block to allocate, the place of the new entry is whatever the allocator returns. */
  lemma HandsOne(sb: Super, vol: Volume, files: seq<DInode>, f: nat)
    requires FsInv(sb, vol, files) && f < |files| && IsDir(files[f].mode) && Length(files[f]) < CAPACITY
    requires Need(vol.disk, files[f], Length(files[f]) / 64) == 1
    ensures var m, p := NextBlock(sb, vol, files[f]), Allocated(sb, vol.zmap).num;
      Handed(vol, files[f], m, p) && (p == NULL_BLOCK ==> m.vol.disk == vol.disk)
  {
    var ip, l := files[f], Length(files[f]) / 64;
    NextBlockIs(sb, vol, ip);
    BlockMappedReports(sb, vol, ip, l, true);
    if l >= DIRECT {
      assert Ref(vol.disk, files[f], INDIRECT) == ip.zones[ZONE_SINGLE];
      PutAt(vol.disk, ip.zones[ZONE_SINGLE] as int * 1024 + 2 * (l - DIRECT), Allocated(sb, vol.zmap).num);
    }
  }

  /** With two blocks to allocate, the indirect block comes first: none stops the system, one off the
      device leaves the result to an uninitialised buffer. */
  lemma HandsTwo(sb: Super, vol: Volume, files: seq<DInode>, f: nat)
    requires FsInv(sb, vol, files) && f < |files| && IsDir(files[f].mode) && Length(files[f]) < CAPACITY
    requires Need(vol.disk, files[f], Length(files[f]) / 64) == 2
    ensures var m, p := NextBlock(sb, vol, files[f]), Allocated(sb, vol.zmap).num;
      && (p == NULL_BLOCK ==> m.outcome == Panic)
      && (p != NULL_BLOCK && (p as int + 1) * 1024 > |vol.disk| ==> m.outcome == Garbage)
      && (Room(sb, vol.zmap, 1) ==>
            && Handed(vol, files[f], m, Allocated(sb, Allocated(sb, vol.zmap).zmap).num)
            && (m.outcome.num == NULL_BLOCK ==> m.vol.disk == vol.disk))
  {
    var ip, l := files[f], Length(files[f]) / 64;
    NextBlockIs(sb, vol, ip);
    BlockMappedReports(sb, vol, ip, l, true);
    if Room(sb, vol.zmap, 1) {
      AllocatedRoom(sb, vol.zmap);
      var p := Allocated(sb, vol.zmap).num;
      assert ZeroBlock(vol.disk, p);
      ZeroEntry(vol.disk, p, l - DIRECT);
      PutAt(vol.disk, p as int * 1024 + 2 * (l - DIRECT), Allocated(sb, Allocated(sb, vol.zmap).zmap).num);
    }
  }

  /** Storing the new entry in the block handed out: an assertion fails iff it is not on the device;
      the null block is the boot block, and then the directory has a hole. */
  lemma StoredWhereHanded(vol: Volume, ip: DInode, m: Mapping, p: u16, d: Dirent)
    requires Handed(vol, ip, m, p) && Length(ip) % 64 == 0 && BLOCK <= |vol.disk|
    ensures var r := Grown(m, Length(ip), d);
      && r.ret == (if p as int * 1024 + DIRENT_SIZE <= |vol.disk| then Code(0) else Crash)
      && (r.ret == Code(0) ==> r.vol.disk == Splice(m.vol.disk, p as int * 1024, PutDirent(d)))
      && (p == NULL_BLOCK ==> !HoleFree(r.vol.disk, r.ip))
  {
    var n := Length(ip);
    var r := Grown(m, n, d);
    EnlargedLength(m.ip);
    if p == NULL_BLOCK {
      StoredRef(m.vol.disk, r.vol.disk, m.ip, r.ip, n / 64, 0, NULL_BLOCK);
      assert !Present(r.vol.disk, r.ip, n);
    }
  }

  /** How minix_dirent_add() of a new name ends when one block is missing. */
  lemma {:induction false} AddOneBlock(sb: Super, vol: Volume, files: seq<DInode>, f: nat, name: CString, num: u16)
    requires FsInv(sb, vol, files) && f < |files| && IsDir(files[f].mode) && |name| <= NAME_MAX && num != NULL_INODE
    requires Find(Entries(vol.disk, files[f]), name) == Length(files[f]) < CAPACITY
    requires LastFree(Entries(vol.disk, files[f])) < 0 && Need(vol.disk, files[f], Length(files[f]) / 64) == 1
    ensures var r, p := Added(sb, vol, files[f], name, num), Allocated(sb, vol.zmap).num;
      && r.ret == (if p as int * 1024 + DIRENT_SIZE <= |vol.disk| then Code(0) else Crash)
      && (p == NULL_BLOCK ==>
            r.vol.disk == Splice(vol.disk, 0, PutDirent(NewEntry(name, num))) && !HoleFree(r.vol.disk, r.ip))
  {
    assert DirOk(vol.disk, files[f]);
    NeedAtBoundary(vol.disk, files[f]);
    HandsOne(sb, vol, files, f);
    StoredWhereHanded(vol, files[f], NextBlock(sb, vol, files[f]), Allocated(sb, vol.zmap).num, NewEntry(name, num));
  }

  /** The block number handed out without room: null if the map is full, else the one after the device. */
  lemma WithoutRoom(sb: Super, zmap: Bitmap)
    requires sb.magic == MAGIC && 0 < sb.firstData <= sb.nblocks && ZonesInside(sb, zmap) && !Room(sb, zmap, 1)
    ensures Allocated(sb, zmap).num == if NSet(zmap) == |zmap| then NULL_BLOCK else sb.nblocks
  {
    RoomIffPlace(sb, zmap);
    RoomIffCount(zmap);
    if NSet(zmap) < |zmap| { FirstFreeBound(zmap, LeastClear(zmap)); }
  }

  /** On a device of exactly the volume's size, adding a name for which one block is missing and none is
      left: with a full zone map the entry goes over the boot block and success is reported; otherwise
      an assertion fails. */
  lemma {:induction false} AddWithoutRoom(sb: Super, vol: Volume, files: seq<DInode>, f: nat, name: CString, num: u16)
    requires FsInv(sb, vol, files) && f < |files| && IsDir(files[f].mode) && |name| <= NAME_MAX && num != NULL_INODE
    requires Find(Entries(vol.disk, files[f]), name) == Length(files[f]) < CAPACITY
    requires LastFree(Entries(vol.disk, files[f])) < 0 && Need(vol.disk, files[f], Length(files[f]) / 64) == 1
    requires ZonesInside(sb, vol.zmap) && !Room(sb, vol.zmap, 1) && |vol.disk| == sb.nblocks as int * 1024
    ensures var r := Added(sb, vol, files[f], name, num);
      if NSet(vol.zmap) == |vol.zmap| then
        && r.ret == Code(0) && r.vol.disk == Splice(vol.disk, 0, PutDirent(NewEntry(name, num)))
        && !HoleFree(r.vol.disk, r.ip)
      else r.ret == Crash
  {
    WithoutRoom(sb, vol.zmap);
    AddOneBlock(sb, vol, files, f, name, num);
  }

  /** The same when the first block of the single-indirect zone is missing together with the indirect
      block itself. */
  lemma {:induction false} AddWithoutTwo(sb: Super, vol: Volume, files: seq<DInode>, f: nat, name: CString, num: u16)
    requires FsInv(sb, vol, files) && f < |files| && IsDir(files[f].mode) && |name| <= NAME_MAX && num != NULL_INODE
    requires Find(Entries(vol.disk, files[f]), name) == Length(files[f]) < CAPACITY
    requires LastFree(Entries(vol.disk, files[f])) < 0 && Need(vol.disk, files[f], Length(files[f]) / 64) == 2
    requires ZonesInside(sb, vol.zmap) && !Room(sb, vol.zmap, 2) && |vol.disk| == sb.nblocks as int * 1024
    requires |vol.zmap| <= 0x1_0000
    ensures var r := Added(sb, vol, files[f], name, num);
      if !Room(sb, vol.zmap, 1) then r.ret == if NSet(vol.zmap) == |vol.zmap| then Crash else Undefined
      else if NSet(vol.zmap) + 1 == |vol.zmap| then
        && r.ret == Code(0) && r.vol.disk == Splice(vol.disk, 0, PutDirent(NewEntry(name, num)))
        && !HoleFree(r.vol.disk, r.ip)
      else r.ret == Crash
  {
    assert DirOk(vol.disk, files[f]);
    NeedAtBoundary(vol.disk, files[f]);
    HandsTwo(sb, vol, files, f);
    if !Room(sb, vol.zmap, 1) {
      WithoutRoom(sb, vol.zmap);
    } else {
      var z := Allocated(sb, vol.zmap).zmap;
      AllocatedGrowsByOne(sb, vol.zmap);
      AllocatedInside(sb, vol.zmap);
      WithoutRoom(sb, z);
      StoredWhereHanded(vol, files[f], NextBlock(sb, vol, files[f]), Allocated(sb, z).num, NewEntry(name, num));
    }
  }

  /** Adding a new name to a directory without a free slot leaves a sound volume exactly when there is
      room for the blocks it needs. */
  lemma {:induction false} AddSoundIffRoom(sb: Super, vol: Volume, files: seq<DInode>, f: nat, name: CString, num: u16)
    requires FsInv(sb, vol, files) && f < |files| && IsDir(files[f].mode) && |name| <= NAME_MAX && num != NULL_INODE
    requires Find(Entries(vol.disk, files[f]), name) == Length(files[f]) < CAPACITY
    requires LastFree(Entries(vol.disk, files[f])) < 0
    requires ZonesInside(sb, vol.zmap) && |vol.zmap| <= 0x1_0000
    ensures var r := Added(sb, vol, files[f], name, num);
      (r.ret == Code(0) && FsInv(sb, r.vol, files[f := r.ip])) <==> CanAdd(sb, vol, files[f])
  {
    var r := Added(sb, vol, files[f], name, num);
    if CanAdd(sb, vol, files[f]) {
      AddedAtEnd(sb, vol, files, f, name, num);
    } else if r.ret == Code(0) && FsInv(sb, r.vol, files[f := r.ip]) {
      SoundWasDelivered(sb, vol, files, f, NewEntry(name, num));
      DeliveredIffRoom(sb, vol, files, f, Length(files[f]) / 64);
    }
  }

  lemma SoundWasDelivered(sb: Super, vol: Volume, files: seq<DInode>, f: nat, d: Dirent)
    requires FsInv(sb, vol, files) && f < |files| && IsDir(files[f].mode) && Length(files[f]) < CAPACITY
    requires var r := Grown(NextBlock(sb, vol, files[f]), Length(files[f]), d);
      r.ret == Code(0) && FsInv(sb, r.vol, files[f := r.ip])
    ensures Delivered(sb, BlockMapped(sb, vol, files[f], Length(files[f]) / 64, true), Length(files[f]) / 64)
  {
    var n := Length(files[f]);
    var m := BlockMapped(sb, vol, files[f], n / 64, true);
    NextBlockIs(sb, vol, files[f]);
    BlockMappedReports(sb, vol, files[f], n / 64, true);
    BlockMappedFrame(sb, vol, files[f], n / 64, true);
    EnlargedLength(m.ip);
    StoredSoundly(sb, m, files, f, n, d);
  }

  /** If storing at the mapped place left a sound volume, the mapping had delivered. */
  lemma StoredSoundly(sb: Super, m: Mapping, files: seq<DInode>, f: nat, n: nat, d: Dirent)
    requires f < |files| && n < CAPACITY && m.outcome.Block? && Length(Enlarged(m.ip)) == n + 1 && IsDir(m.ip.mode)
    requires m.outcome.num == Ref(m.vol.disk, m.ip, n / 64)
    requires n / 64 >= DIRECT ==> m.ip.zones[ZONE_SINGLE] != NULL_BLOCK
    requires var r := Grown(m, n, d); r.ret == Code(0) && FsInv(sb, r.vol, files[f := r.ip])
    ensures Delivered(sb, m, n / 64)
  {
    var r := Grown(m, n, d);
    var files' := files[f := r.ip];
    assert DirOk(r.vol.disk, files'[f]) && Present(r.vol.disk, files'[f], n);
    StoredRef(m.vol.disk, r.vol.disk, m.ip, r.ip, n / 64, Place(m.outcome.num, n), m.outcome.num);
    assert Ref(r.vol.disk, files'[f], INDIRECT) == m.ip.zones[ZONE_SINGLE];
    assert Ref(r.vol.disk, files'[f], n / 64) != NULL_BLOCK;
  }

  /** A store into block `b` leaves a reference alone unless `b` is the indirect block itself. */
  lemma StoredRef(disk: Image, disk': Image, ip: DInode, ip': DInode, l: nat, at: nat, b: u16)
    requires |disk'| == |disk| && l < LOGICAL && ip'.zones == ip.zones
    requires b as int * 1024 <= at && at + DIRENT_SIZE <= (b as int + 1) * 1024
    requires forall i: nat | i < |disk| && !(at <= i < at + DIRENT_SIZE) :: disk'[i] == disk[i]
    ensures b != ip.zones[ZONE_SINGLE] ==> Ref(disk', ip', l) == Ref(disk, ip, l)
  {
    if b != ip.zones[ZONE_SINGLE] {
      forall i: nat | i < |disk| && InBlock(ip.zones[ZONE_SINGLE], i) ensures disk'[i] == disk[i] {}
      SameRefs(disk, disk', ip, l);
      assert Ref(disk', ip', l) == Ref(disk', ip, l);
    }
  }

  // ----- removing an entry

  /** minix_inode_offset(). */
  function InodeAt(sb: Super, n: nat): nat
  {
    (2 + sb.imapBlocks as int + sb.bmapBlocks as int + n / 32) * 1024 + n % 32 * 32
  }

  /** The inode in slot `n` of the inode table. */
  function InodeIn(sb: Super, disk: Image, n: nat): DInode
    requires InRange(disk, InodeAt(sb, n), INODE_SIZE)
  {
    GetInode(disk[InodeAt(sb, n)..InodeAt(sb, n) + INODE_SIZE])
  }

  const DOT: CString := [46]

  /** minix_dirent_remove() on a directory without holes; `dip` itself is not changed. */
  function Removed(sb: Super, vol: Volume, ip: DInode, name: CString): DirResult
  {
    if !IsDir(ip.mode) then DirResult(vol, ip, Code(EINVAL))
    else if |name| > NAME_MAX then DirResult(vol, ip, Code(ENAMETOOLONG))
    else if name == DOT then DirResult(vol, ip, Code(EBUSY))
    else
      var t := Entries(vol.disk, ip);
      var k := Find(t, name);
      if k == |t| then DirResult(vol, ip, Code(ENOENT))
      else
        if Present(vol.disk, ip, k) then
          var u := UnlinkTail(sb, vol.disk, t[k].value, EntryAt(vol.disk, ip, k));
          DirResult(vol.(disk := u.disk), ip, u.ret)
        else DirResult(vol, ip, Undefined)
  }

  datatype Tail = Tail(disk: Image, ret: Ret)

  /** The second half of minix_dirent_remove(): drop one link of inode `ino`, clear the entry. */
  function UnlinkTail(sb: Super, disk: Image, ino: u16, at: nat): (r: Tail)
    requires at + DIRENT_SIZE <= |disk|
    ensures |r.disk| == |disk|
  {
    if sb.magic != MAGIC || ino == 0 || ino > sb.ninodes || !InRange(disk, InodeAt(sb, ino - 1), INODE_SIZE)
    then Tail(disk, Code(ENOENT))
    else if IsDir(InodeIn(sb, disk, ino - 1).mode) && InodeIn(sb, disk, ino - 1).size > 0
    then Tail(disk, Code(EBUSY))
    else Tail(Unlinked(sb, disk, ino, at), Code(0))
  }

  function DeadEntry(): (d: Dirent)
    ensures SlotOf(d) == Free
  {
    Dirent(NULL_INODE, Pad([]))
  }

  /** An inode with one link fewer, in 8 bits. */
  function OneLinkFewer(ip: DInode): DInode { ip.(nlinks := (ip.nlinks as int + 255) % 256) }

  /** The image with one link fewer on inode number `ino`. */
  function Dropped(sb: Super, disk: Image, ino: u16): (r: Image)
    requires 0 < ino && InRange(disk, InodeAt(sb, ino - 1), INODE_SIZE)
    ensures |r| == |disk|
  {
    Splice(disk, InodeAt(sb, ino - 1), PutInode(OneLinkFewer(InodeIn(sb, disk, ino - 1))))
  }

  /** One link fewer on inode number `ino`, and a dead entry at `entryAt`. */
  function Unlinked(sb: Super, disk: Image, ino: u16, entryAt: nat): (r: Image)
    requires 0 < ino && InRange(disk, InodeAt(sb, ino - 1), INODE_SIZE) && entryAt + DIRENT_SIZE <= |disk|
    ensures |r| == |disk|
  {
    Splice(Dropped(sb, disk, ino), entryAt, PutDirent(DeadEntry()))
  }

  /** The inode table lies between the maps and the first data block. */
  lemma InodeSlotPlace(sb: Super, n: nat)
    requires InodesFit(sb) && n < sb.ninodes
    ensures (2 + sb.imapBlocks as int + sb.bmapBlocks as int) * 1024 <= InodeAt(sb, n)
    ensures InodeAt(sb, n) + INODE_SIZE <= sb.firstData as int * 1024
  {}

  /** Bytes of the boot block and of the data area are as before. */
  ghost predicate TableOnly(sb: Super, disk: Image, disk': Image)
  {
    && |disk'| == |disk|
    && forall i: nat | i < |disk| && (i < 1024 || sb.firstData as int * 1024 <= i) :: disk'[i] == disk[i]
  }

  lemma TableOnlyIsData(sb: Super, vol: Volume, files: seq<DInode>, disk': Image)
    requires MapInv(sb, vol, files) && TableOnly(sb, vol.disk, disk')
    ensures DataOnly(sb, vol, files, disk')
  {
    forall f: nat | f < |files| ensures SameBlock(vol.disk, disk', files[f].zones[ZONE_SINGLE]) {
      assert Ref(vol.disk, files[f], INDIRECT) == files[f].zones[ZONE_SINGLE];
    }
  }

  lemma TableOnlyKeepsEntry(sb: Super, vol: Volume, files: seq<DInode>, disk': Image, g: nat, j: nat)
    requires MapInv(sb, vol, files) && TableOnly(sb, vol.disk, disk') && g < |files| && Present(vol.disk, files[g], j)
    ensures Present(disk', files[g], j) && EntryAt(disk', files[g], j) == EntryAt(vol.disk, files[g], j)
    ensures Entry(disk', files[g], j) == Entry(vol.disk, files[g], j)
  {
    TableOnlyIsData(sb, vol, files, disk');
    DataKeepsPlace(sb, vol, files, disk', g, j);
    PresentOwned(sb, vol, files, g, j);
    var at := EntryAt(vol.disk, files[g], j);
    assert disk'[at..at + DIRENT_SIZE] == vol.disk[at..at + DIRENT_SIZE];
  }

  /** Writing the inode table is invisible in every directory. */
  lemma TableOnlyKeepsDirs(sb: Super, vol: Volume, files: seq<DInode>, disk': Image)
    requires FsInv(sb, vol, files) && TableOnly(sb, vol.disk, disk')
    ensures FsInv(sb, vol.(disk := disk'), files)
    ensures forall g: nat | g < |files| && IsDir(files[g].mode) :: Entries(disk', files[g]) == Entries(vol.disk, files[g])
  {
    TableOnlyIsData(sb, vol, files, disk');
    DataOnlyKeeps(sb, vol, files, disk');
    forall g: nat | g < |files| && IsDir(files[g].mode)
      ensures DirOk(disk', files[g]) && Entries(disk', files[g]) == Entries(vol.disk, files[g])
    {
      assert DirOk(vol.disk, files[g]);
      forall k: nat | k < Length(files[g]) && Present(vol.disk, files[g], k)
        ensures Present(disk', files[g], k) && Entry(disk', files[g], k) == Entry(vol.disk, files[g], k)
      {
        TableOnlyKeepsEntry(sb, vol, files, disk', g, k);
      }
      SameTable(vol.disk, files[g], disk', files[g]);
    }
  }

  /** Whether minix_dirent_remove() may unlink inode number `ino`. */
  predicate Unlinkable(sb: Super, disk: Image, ino: u16)
  {
    && 0 < ino <= sb.ninodes && InRange(disk, InodeAt(sb, ino - 1), INODE_SIZE)
    && !(IsDir(InodeIn(sb, disk, ino - 1).mode) && InodeIn(sb, disk, ino - 1).size > 0)
  }

  /** The effect of a removal on the inode table: inode `ino` loses one link, no other changes. */
  ghost predicate LinkDropped(sb: Super, disk: Image, disk': Image, ino: u16)
  {
    && |disk'| == |disk|
    && forall n: nat | n < sb.ninodes && InRange(disk, InodeAt(sb, n), INODE_SIZE) ::
         InodeIn(sb, disk', n) == if n == ino - 1 then OneLinkFewer(InodeIn(sb, disk, n)) else InodeIn(sb, disk, n)
  }

  lemma DroppedSlot(sb: Super, disk: Image, ino: u16, n: nat)
    requires InodesFit(sb) && 0 < ino <= sb.ninodes && n < sb.ninodes
    requires InRange(disk, InodeAt(sb, ino - 1), INODE_SIZE) && InRange(disk, InodeAt(sb, n), INODE_SIZE)
    ensures InodeIn(sb, Dropped(sb, disk, ino), n) ==
      if n == ino - 1 then OneLinkFewer(InodeIn(sb, disk, n)) else InodeIn(sb, disk, n)
  {
    InodeWriteRead(sb, disk, OneLinkFewer(InodeIn(sb, disk, ino - 1)), ino - 1, n);
  }

  /** Writing an inode and reading it back gives that inode, and no other slot changes. */
  lemma InodeWriteRead(sb: Super, disk: Image, ip: DInode, k: nat, n: nat)
    requires InRange(disk, InodeAt(sb, k), INODE_SIZE) && InRange(disk, InodeAt(sb, n), INODE_SIZE)
    ensures InodeIn(sb, Splice(disk, InodeAt(sb, k), PutInode(ip)), n) == if n == k then ip else InodeIn(sb, disk, n)
  {
    InodeRoundTrip(ip);
    SlotsApart(n, k);
    SpliceSlice(disk, InodeAt(sb, k), PutInode(ip), InodeAt(sb, n), InodeAt(sb, n) + INODE_SIZE);
  }

  lemma DroppedSlots(sb: Super, disk: Image, ino: u16, entryAt: nat)
    requires InodesFit(sb) && 0 < ino <= sb.ninodes && InRange(disk, InodeAt(sb, ino - 1), INODE_SIZE)
    requires sb.firstData as int * 1024 <= entryAt && entryAt + DIRENT_SIZE <= |disk|
    ensures LinkDropped(sb, disk, Unlinked(sb, disk, ino, entryAt), ino)
  {
    forall n: nat | n < sb.ninodes && InRange(disk, InodeAt(sb, n), INODE_SIZE)
      ensures InodeIn(sb, Unlinked(sb, disk, ino, entryAt), n) ==
        if n == ino - 1 then OneLinkFewer(InodeIn(sb, disk, n)) else InodeIn(sb, disk, n)
    {
      DroppedSlot(sb, disk, ino, n);
      DataKeepsInode(sb, Dropped(sb, disk, ino), entryAt, PutDirent(DeadEntry()), n);
    }
  }

  /** A write into the data area leaves every inode slot alone. */
  lemma DataKeepsInode(sb: Super, disk: Image, at: nat, buf: Image, n: nat)
    requires InodesFit(sb) && n < sb.ninodes && InRange(disk, InodeAt(sb, n), INODE_SIZE)
    requires sb.firstData as int * 1024 <= at && at + |buf| <= |disk|
    ensures InodeIn(sb, Splice(disk, at, buf), n) == InodeIn(sb, disk, n)
  {
    InodeSlotPlace(sb, n);
    SpliceSlice(disk, at, buf, InodeAt(sb, n), InodeAt(sb, n) + INODE_SIZE);
  }

  lemma DroppedIsTable(sb: Super, disk: Image, ino: u16)
    requires InodesFit(sb) && 0 < ino <= sb.ninodes && InRange(disk, InodeAt(sb, ino - 1), INODE_SIZE)
    ensures TableOnly(sb, disk, Dropped(sb, disk, ino))
  {
    InodeSlotPlace(sb, ino - 1);
  }

  lemma SlotsApart(n: nat, m: nat)
    ensures n == m
         || n / 32 * 1024 + n % 32 * 32 + 32 <= m / 32 * 1024 + m % 32 * 32
         || m / 32 * 1024 + m % 32 * 32 + 32 <= n / 32 * 1024 + n % 32 * 32
  {}

  lemma TailCases(sb: Super, disk: Image, ino: u16, at: nat)
    requires sb.magic == MAGIC && at + DIRENT_SIZE <= |disk|
    ensures var u := UnlinkTail(sb, disk, ino, at);
      && u.ret.Code? && (u.ret == Code(0) <==> Unlinkable(sb, disk, ino))
      && (u.ret == Code(0) ==> u.disk == Unlinked(sb, disk, ino, at))
      && (u.ret != Code(0) ==> u.disk == disk)
  {}

  /** The two ways minix_dirent_remove() goes once its arguments are accepted. */
  lemma {:induction false} RemovedSplits(sb: Super, vol: Volume, ip: DInode, name: CString)
    requires IsDir(ip.mode) && |name| <= NAME_MAX && name != DOT && HoleFree(vol.disk, ip)
    ensures var t := Entries(vol.disk, ip);
      var k := Find(t, name);
      && (k == |t| ==> Removed(sb, vol, ip, name) == DirResult(vol, ip, Code(ENOENT)))
      && (k < |t| ==>
            && Present(vol.disk, ip, k)
            && var u := UnlinkTail(sb, vol.disk, t[k].value, EntryAt(vol.disk, ip, k));
               Removed(sb, vol, ip, name) == DirResult(vol.(disk := u.disk), ip, u.ret))
  {
    var k := Find(Entries(vol.disk, ip), name);
    assert k < Length(ip) ==> Present(vol.disk, ip, k);
  }

  /** minix_dirent_remove() on any directory of a sound volume: it succeeds exactly on a name
      other than "." that is present and whose inode may be unlinked; then exactly that name
      disappears and its inode loses one link. Every failure leaves the volume as it was. */
  lemma RemoveShrinksMap(sb: Super, vol: Volume, files: seq<DInode>, f: nat, name: CString)
    requires FsInv(sb, vol, files) && f < |files| && IsDir(files[f].mode) && |name| <= NAME_MAX
    ensures var r := Removed(sb, vol, files[f], name);
      var before, after := AsMap(Entries(vol.disk, files[f])), AsMap(Entries(r.vol.disk, files[f]));
      && r.ip == files[f] && r.vol.zmap == vol.zmap && r.ret.Code?
      && FsInv(sb, r.vol, files)
      && OthersSame(vol.disk, files, r.vol.disk, files, f)
      && (r.ret == Code(0) <==> name != DOT && name in before && Unlinkable(sb, vol.disk, before[name]))
      && (r.ret == Code(0) ==> after == before - {name} && LinkDropped(sb, vol.disk, r.vol.disk, before[name]))
      && (r.ret != Code(0) ==> r.vol == vol)
  {
    var t := Entries(vol.disk, files[f]);
    var k := Find(t, name);
    assert DirOk(vol.disk, files[f]);
    FindIsLookup(t, name);
    if name != DOT {
      RemovedSplits(sb, vol, files[f], name);
      if k < |t| {
        TailCases(sb, vol.disk, t[k].value, EntryAt(vol.disk, files[f], k));
        if Unlinkable(sb, vol.disk, t[k].value) {
          UnlinkedStep(sb, vol, files, f, k);
          Release(t, k);
        }
      }
    }
  }

  lemma UnlinkedStep(sb: Super, vol: Volume, files: seq<DInode>, f: nat, k: nat)
    requires FsInv(sb, vol, files) && f < |files| && IsDir(files[f].mode) && k < Length(files[f])
    requires var s := Entries(vol.disk, files[f])[k]; s.Used? && Unlinkable(sb, vol.disk, s.value)
    ensures Present(vol.disk, files[f], k)
    ensures var t := Entries(vol.disk, files[f]);
      var disk' := Unlinked(sb, vol.disk, t[k].value, EntryAt(vol.disk, files[f], k));
      && FsInv(sb, vol.(disk := disk'), files)
      && OthersSame(vol.disk, files, disk', files, f)
      && Entries(disk', files[f]) == t[k := Free]
      && LinkDropped(sb, vol.disk, disk', t[k].value)
  {
    var ino := Entries(vol.disk, files[f])[k].value;
    assert DirOk(vol.disk, files[f]) && Present(vol.disk, files[f], k);
    PresentOwned(sb, vol, files, f, k);
    DroppedSlots(sb, vol.disk, ino, EntryAt(vol.disk, files[f], k));
    DroppedIsTable(sb, vol.disk, ino);
    var vol1 := vol.(disk := Dropped(sb, vol.disk, ino));
    TableOnlyKeepsDirs(sb, vol, files, vol1.disk);
    TableOnlyKeepsEntry(sb, vol, files, vol1.disk, f, k);
    ClearedStep(sb, vol1, files, f, k);
  }

  lemma ClearedStep(sb: Super, vol: Volume, files: seq<DInode>, f: nat, k: nat)
    requires FsInv(sb, vol, files) && f < |files| && IsDir(files[f].mode) && k < Length(files[f])
    requires Entries(vol.disk, files[f])[k].Used?
    ensures Present(vol.disk, files[f], k)
    ensures var disk' := Splice(vol.disk, EntryAt(vol.disk, files[f], k), PutDirent(DeadEntry()));
      && FsInv(sb, vol.(disk := disk'), files)
      && OthersSame(vol.disk, files, disk', files, f)
      && Entries(disk', files[f]) == Entries(vol.disk, files[f])[k := Free]
  {
    assert DirOk(vol.disk, files[f]) && Present(vol.disk, files[f], k);
    TableUpdated(sb, vol, files, f, k, DeadEntry(), files[f]);
    Release(Entries(vol.disk, files[f]), k);
    InvAfter(sb, vol, files, f, k, DeadEntry(), files[f]);
    assert files[f := files[f]] == files;
  }
}
