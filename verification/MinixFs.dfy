/**
  The file system as one state: the volume, the inodes in memory with their numbers, and the inode
  map. Runs of directory operations, mappings, inode allocations, write-backs and frees
  (src/sys/fs/vfs/minix/minix.c, block.c and inode.c) are refined to directories, an inode table and
  a set of numbers, with a growing set of files; writing everything back and mounting again restores
  all of it.
 */
module MinixFs {
  import opened Disk
  import opened MinixFormat
  import opened Bitmaps
  import opened SlotTable
  import opened MinixBlocks
  import opened MinixDir
  import opened MinixRun
  import opened MinixVolume
  import opened MinixSuper

  /** Files in memory, the inode number of each, and the inode map. */
  datatype Vfs = Vfs(st: Files, nums: seq<u16>, ibits: Bitmap)

  datatype FsOp =
    | OnFiles(op: Op)
    | Create(mode: u16, uid: u16, gid: u16, now: nat)
    | WriteBack(file: nat)
    | FreeNumber(num: u16)

  /** What an operation returns, and the inode of its file afterwards. */
  datatype Report = Report(ret: Ret, ip: DInode)

  datatype Turn = Turn(s: Vfs, r: Report)

  function FileOf(op: Op): nat
  {
    match op
    case AddName(f, _, _) => f
    case RemoveName(f, _) => f
    case MapOffset(f, _, _) => f
  }

  const NO_INODE := DInode(0, 0, 0, 0, 0, 0, [0, 0, 0, 0, 0, 0, 0, 0, 0])

  function InodeOf(inodes: seq<DInode>, f: nat): DInode { if f < |inodes| then inodes[f] else NO_INODE }

  function WithDisk(s: Vfs, disk: Image): Vfs { s.(st := s.st.(vol := s.st.vol.(disk := disk))) }

  /** One operation: on the files as they are, minix_inode_alloc(), minix_inode_write() of a file in
      memory, or minix_inode_free(). */
  function Exec(sb: Super, s: Vfs, op: FsOp): Turn
    requires |s.nums| == |s.st.inodes|
  {
    match op
    case OnFiles(o) =>
      var r := Apply(sb, s.st, o);
      Turn(s.(st := r.st), Report(r.ret, InodeOf(r.st.inodes, FileOf(o))))
    case Create(mode, uid, gid, now) =>
      var ip := NewInode(mode, uid, gid, now);
      Created(s, InodeAllocated(sb, s.st.vol.disk, s.ibits, ip), ip)
    case WriteBack(f) =>
      if f < |s.st.inodes| then
        var w := InodeWritten(sb, s.st.vol.disk, s.st.inodes[f], s.nums[f]);
        Turn(WithDisk(s, w.disk), Report(Code(w.ret), s.st.inodes[f]))
      else Turn(s, Report(Code(EINVAL), NO_INODE))
    case FreeNumber(num) =>
      var fr := InodeFreed(sb, s.ibits, num);
      Turn(s.(ibits := fr.zmap), Report(Code(if fr.ok then 0 else EINVAL), NO_INODE))
  }

  /** After minix_inode_alloc() a new file is in memory, unless it returned the null inode. */
  function Created(s: Vfs, a: InodeAlloc, ip: DInode): Turn
  {
    var t := WithDisk(s, a.disk).(ibits := a.bits);
    if a.num == NULL_INODE then Turn(t, Report(Code(0), ip))
    else Turn(Vfs(t.st.(inodes := s.st.inodes + [ip]), s.nums + [a.num], a.bits), Report(Code(a.num), ip))
  }

  // ----- the abstract file system

  /** Directories and inode table, the files in memory with their numbers, and the numbers in use. */
  datatype World = World(fs: Fs, mem: seq<DInode>, nums: seq<u16>, used: set<nat>)

  ghost predicate FsOk(sb: Super, s: Vfs)
  {
    && RunInv(sb, s.st) && Guarded(sb, s.ibits)
    && |s.nums| == |s.st.inodes| && forall f: nat | f < |s.nums| :: 0 < s.nums[f] <= sb.ninodes
  }

  ghost function AbsFs(sb: Super, s: Vfs): World
    requires FsOk(sb, s)
  {
    World(Abs(sb, s.st), s.st.inodes, s.nums, InUse(sb, s.ibits))
  }

  ghost predicate AllUsed(a: World, hi: nat) { forall n: nat | 1 <= n < hi :: n in a.used }

  /** The number that the next allocation hands out: the least one that is not in use; null if there is
      none, or with fewer than four inodes. */
  ghost predicate NextNumber(a: World, num: u16)
  {
    if num == NULL_INODE then |a.fs.table| < 4 || AllUsed(a, |a.fs.table| + 1)
    else 4 <= |a.fs.table| && 1 <= num <= |a.fs.table| && num as nat !in a.used && AllUsed(a, num)
  }

  function WithInode(t: seq<DInode>, num: u16, ip: DInode): seq<DInode>
  {
    if 0 < num <= |t| then t[num - 1 := ip] else t
  }

  ghost function WithFile(fs: Fs, num: u16, ip: DInode): Fs
  {
    Fs(fs.files + 1, if IsDir(ip.mode) then fs.dirs[fs.files := map[]] else fs.dirs, WithInode(fs.table, num, ip))
  }

  /** What an operation does to the abstract file system. */
  ghost function FsEffect(a: World, op: FsOp, r: Report): World
  {
    match op
    case OnFiles(o) =>
      a.(fs := Effect(a.fs, o), mem := if FileOf(o) < |a.mem| then a.mem[FileOf(o) := r.ip] else a.mem)
    case Create(mode, uid, gid, now) =>
      if r.ret.Code? && 0 < r.ret.code < 0x1_0000 then
        var ip := NewInode(mode, uid, gid, now);
        World(WithFile(a.fs, r.ret.code, ip), a.mem + [ip], a.nums + [r.ret.code], a.used + {r.ret.code})
      else a
    case WriteBack(f) =>
      if f < |a.mem| && f < |a.nums| then a.(fs := a.fs.(table := WithInode(a.fs.table, a.nums[f], a.mem[f]))) else a
    case FreeNumber(num) => if 0 < num <= |a.fs.table| then a.(used := a.used - {num as nat}) else a
  }

  /** What an operation on the files may do to the inode in memory. */
  ghost predicate InodeAfter(a: Fs, op: Op, ip: DInode, ip': DInode)
  {
    match op
    case AddName(f, name, num) =>
      if AddCode(a, f, name, num) == 0 then
        EntryGained(ip, ip')
      else ip' == ip
    case RemoveName(_, _) => ip' == ip
    case MapOffset(_, _, _) => ip' == ip.(zones := ip'.zones)
  }

  /** Which reports are right. */
  ghost predicate FsCorrect(sb: Super, a: World, op: FsOp, r: Report)
  {
    match op
    case OnFiles(o) =>
      && Correct(sb, a.fs, o, r.ret)
      && (FileOf(o) < |a.mem| ==> InodeAfter(a.fs, o, a.mem[FileOf(o)], r.ip))
    case Create(_, _, _, _) => r.ret.Code? && 0 <= r.ret.code < 0x1_0000 && NextNumber(a, r.ret.code)
    case WriteBack(f) => r.ret == Code(if f < |a.mem| then 0 else EINVAL)
    case FreeNumber(num) => r.ret == Code(if 0 < num <= |a.fs.table| then 0 else EINVAL)
  }

  ghost predicate FsAble(sb: Super, s: Vfs, op: FsOp) { op.OnFiles? ==> Able(sb, s.st, op.op) }

  /** The operation refines its abstract counterpart. */
  ghost predicate FsRefines(sb: Super, s: Vfs, op: FsOp, t: Turn)
    requires FsOk(sb, s)
  {
    && FsOk(sb, t.s)
    && FsCorrect(sb, AbsFs(sb, s), op, t.r)
    && AbsFs(sb, t.s) == FsEffect(AbsFs(sb, s), op, t.r)
  }

  // ----- operations on the files

  /** The inode of a directory that gained an entry. */
  ghost predicate EntryGained(ip: DInode, ip': DInode)
  {
    && ip' == ip.(nlinks := (ip.nlinks as int + 1) % 256, time := 0, size := ip'.size, zones := ip'.zones)
    && (ip'.size == ip.size || ip'.size == (ip.size as int + DIRENT_SIZE) % 0x1_0000_0000)
  }

  lemma GrownInode(ip: DInode, m: Mapping, d: Dirent)
    requires SameAttributes(ip, m.ip)
    ensures var r := Grown(m, Length(ip), d); r.ret == Code(0) ==> EntryGained(ip, r.ip)
  {}

  lemma StoredInode(vol: Volume, ip: DInode, off: nat, d: Dirent)
    ensures var r := Stored(vol, ip, off, d); r.ret == Code(0) ==> EntryGained(ip, r.ip)
  {}

  lemma {:induction false} AddedInode(sb: Super, vol: Volume, ip: DInode, name: CString, num: u16)
    requires |name| <= NAME_MAX
    ensures var r := Added(sb, vol, ip, name, num); r.ret == Code(0) ==> EntryGained(ip, r.ip)
  {
    var t := Entries(vol.disk, ip);
    if LastFree(t) >= 0 {
      if Present(vol.disk, ip, LastFree(t)) { StoredInode(vol, ip, EntryAt(vol.disk, ip, LastFree(t)), NewEntry(name, num)); }
    } else {
      var m := NextBlock(sb, vol, ip);
      MappedFrame(sb, vol, ip, Length(ip) * 16, true);
      GrownInode(ip, m, NewEntry(name, num));
    }
  }

  lemma {:induction false} RefusedInode(sb: Super, vol: Volume, ip: DInode, name: CString, num: u16)
    ensures var r := Added(sb, vol, ip, name, num); r.ret.Code? && r.ret != Code(0) ==> r.ip == ip
  {}

  lemma AddInode(sb: Super, st: Files, f: nat, name: CString, num: u16, r: DirResult)
    requires f < |st.inodes| && r == Added(sb, st.vol, st.inodes[f], name, num)
    requires r.ret == Code(AddCode(Abs(sb, st), f, name, num))
    ensures InodeAfter(Abs(sb, st), AddName(f, name, num), st.inodes[f], r.ip)
  {
    if r.ret == Code(0) {
      AddedInode(sb, st.vol, st.inodes[f], name, num);
    } else {
      RefusedInode(sb, st.vol, st.inodes[f], name, num);
    }
  }

  lemma FileInode(sb: Super, st: Files, op: Op, s: Step)
    requires s == Apply(sb, st, op) && Correct(sb, Abs(sb, st), op, s.ret) && FileOf(op) < |st.inodes|
    ensures s.st.inodes == st.inodes[FileOf(op) := s.st.inodes[FileOf(op)]]
    ensures InodeAfter(Abs(sb, st), op, st.inodes[FileOf(op)], s.st.inodes[FileOf(op)])
  {
    match op
    case AddName(f, name, num) => AddInode(sb, st, f, name, num, Added(sb, st.vol, st.inodes[f], name, num));
    case RemoveName(f, name) =>
    case MapOffset(f, off, create) => MappedFrame(sb, st.vol, st.inodes[f], off, create);
  }

  lemma FilesStep(sb: Super, s: Vfs, op: Op)
    requires FsOk(sb, s) && Able(sb, s.st, op)
    ensures FsRefines(sb, s, OnFiles(op), Exec(sb, s, OnFiles(op)))
  {
    var r := Apply(sb, s.st, op);
    ApplyStep(sb, s.st, op);
    if FileOf(op) < |s.st.inodes| { FileInode(sb, s.st, op, r); } else { NoFile(sb, s.st, op); }
    FilesDone(sb, s, op, r);
  }

  lemma NoFile(sb: Super, st: Files, op: Op)
    requires FileOf(op) >= |st.inodes|
    ensures Apply(sb, st, op).st == st
  {}

  lemma FilesDone(sb: Super, s: Vfs, op: Op, r: Step)
    requires FsOk(sb, s) && Refines(sb, s.st, op, r)
    requires if FileOf(op) < |s.st.inodes|
      then
        && |r.st.inodes| == |s.st.inodes| && r.st.inodes == s.st.inodes[FileOf(op) := r.st.inodes[FileOf(op)]]
        && InodeAfter(Abs(sb, s.st), op, s.st.inodes[FileOf(op)], r.st.inodes[FileOf(op)])
      else r.st == s.st
    ensures FsRefines(sb, s, OnFiles(op), Turn(s.(st := r.st), Report(r.ret, InodeOf(r.st.inodes, FileOf(op)))))
  {}

  // ----- the inode table and the map

  /** Every slot of the inode table is on the device. */
  lemma TableThere(sb: Super, st: Files)
    requires RunInv(sb, st)
    ensures TableOnDevice(sb, st.vol.disk)
  {
    forall n: nat | n < sb.ninodes ensures InRange(st.vol.disk, InodeAt(sb, n), INODE_SIZE) {
      SlotsOnDevice(sb, st.vol, n);
    }
  }

  lemma SlotWriteIsTableOnly(sb: Super, disk: Image, ip: DInode, n: nat)
    requires InodesFit(sb) && n < sb.ninodes && sb.firstData as int * 1024 <= |disk|
    ensures InRange(disk, InodeAt(sb, n), INODE_SIZE)
    ensures TableOnly(sb, disk, Splice(disk, InodeAt(sb, n), PutInode(ip)))
  {
    InodeSlotPlace(sb, n);
  }

  ghost predicate AbsIs(sb: Super, st: Files, a: Fs) { Abs(sb, st) == a }

  /** Writing slot `num` updates the table there and nothing else of the file system. */
  lemma SlotWritten(sb: Super, st: Files, ip: DInode, num: u16, st': Files)
    requires RunInv(sb, st) && 0 < num <= sb.ninodes && InRange(st.vol.disk, InodeAt(sb, num - 1), INODE_SIZE)
    requires st' == st.(vol := st.vol.(disk := Splice(st.vol.disk, InodeAt(sb, num - 1), PutInode(ip))))
    ensures RunInv(sb, st') && AbsIs(sb, st', Abs(sb, st).(table := WithInode(InodeTable(sb, st.vol.disk), num, ip)))
  {
    SlotWriteIsTableOnly(sb, st.vol.disk, ip, num - 1);
    TableOnlyKeepsDirs(sb, st.vol, st.inodes, st'.vol.disk);
    TableAfter(sb, st.vol, ip, num, st'.vol.disk);
    assert Dirs(st') == Dirs(st);
  }

  lemma TableAfter(sb: Super, vol: Volume, ip: DInode, num: u16, disk': Image)
    requires Fits(sb, vol) && InodesFit(sb) && 0 < num <= sb.ninodes && InRange(vol.disk, InodeAt(sb, num - 1), INODE_SIZE)
    requires disk' == Splice(vol.disk, InodeAt(sb, num - 1), PutInode(ip))
    ensures InodeTable(sb, disk') == WithInode(InodeTable(sb, vol.disk), num, ip)
  {
    forall n: nat | n < sb.ninodes ensures SlotIn(sb, disk', n) == if n == num - 1 then ip else SlotIn(sb, vol.disk, n) {
      SlotsOnDevice(sb, vol, n);
      InodeWriteRead(sb, vol.disk, ip, num - 1, n);
    }
  }

  /** An inode without blocks or entries. */
  predicate Empty(ip: DInode) { ip.size == 0 && ip.zones == [0, 0, 0, 0, 0, 0, 0, 0, 0] }

  lemma EmptyRefs(disk: Image, ip: DInode, k: nat)
    requires Empty(ip) && k < SLOTS
    ensures Ref(disk, ip, k) == NULL_BLOCK
  {}

  lemma AppendedRefs(sb: Super, vol: Volume, files: seq<DInode>, ip: DInode)
    requires MapInv(sb, vol, files) && Empty(ip)
    ensures MapInv(sb, vol, files + [ip])
  {
    var all := files + [ip];
    forall f: nat, k: nat | f < |all| && k < SLOTS
      ensures Ref(vol.disk, all[f], k) == if f < |files| then Ref(vol.disk, files[f], k) else NULL_BLOCK
    {
      if f == |files| { EmptyRefs(vol.disk, ip, k); }
    }
    forall f: nat, k: nat, g: nat, l: nat | Clash(vol.disk, all, f, k, g, l) ensures f == g && k == l {
      assert Clash(vol.disk, files, f, k, g, l);
    }
  }

  /** A new empty file is a sound file, and a new empty directory an empty map. */
  lemma FileAppended(sb: Super, st: Files, ip: DInode, st': Files)
    requires RunInv(sb, st) && Empty(ip) && st' == st.(inodes := st.inodes + [ip])
    ensures RunInv(sb, st')
    ensures Dirs(st') == if IsDir(ip.mode) then Dirs(st)[|st.inodes| := map[]] else Dirs(st)
  {
    AppendedRefs(sb, st.vol, st.inodes, ip);
    assert Entries(st.vol.disk, ip) == [];
    forall f: nat | f < |st'.inodes| ensures DirOk(st.vol.disk, st'.inodes[f]) {
      if f < |st.inodes| { assert DirOk(st.vol.disk, st.inodes[f]) && st'.inodes[f] == st.inodes[f]; }
    }
    assert AsMap(Entries(st.vol.disk, ip)) == map[];
  }

  // ----- the three inode operations

  lemma NewFile(sb: Super, s: Vfs, ip: DInode, a: InodeAlloc, t: Files)
    requires FsOk(sb, s) && Empty(ip) && 0 < a.num <= sb.ninodes
    requires InRange(s.st.vol.disk, InodeAt(sb, a.num - 1), INODE_SIZE)
    requires t == Files(s.st.vol.(disk := Splice(s.st.vol.disk, InodeAt(sb, a.num - 1), PutInode(ip))), s.st.inodes + [ip])
    ensures RunInv(sb, t) && Abs(sb, t) == WithFile(Abs(sb, s.st), a.num, ip)
  {
    var mid := s.st.(vol := t.vol);
    SlotWritten(sb, s.st, ip, a.num, mid);
    FileAppended(sb, mid, ip, t);
  }

  /** The allocator takes the least free number. */
  lemma LeastNumber(sb: Super, s: Vfs, ip: DInode)
    requires FsOk(sb, s)
    ensures NextNumber(AbsFs(sb, s), InodeAllocated(sb, s.st.vol.disk, s.ibits, ip).num)
  {
    TableThere(sb, s.st);
    InodeAllocCases(sb, s.st.vol.disk, s.ibits, ip);
    var a := AbsFs(sb, s);
    assert |a.fs.table| == sb.ninodes as int;
    forall n: nat | 1 <= n <= LeastClear(s.ibits) && n <= sb.ninodes ensures n in a.used { assert Taken(sb, s.ibits, n); }
  }

  lemma CreateStep(sb: Super, s: Vfs, op: FsOp)
    requires FsOk(sb, s) && op.Create?
    ensures FsRefines(sb, s, op, Exec(sb, s, op))
  {
    var ip := NewInode(op.mode, op.uid, op.gid, op.now);
    CreateFrom(sb, s, op, ip, InodeAllocated(sb, s.st.vol.disk, s.ibits, ip));
  }

  lemma CreateFrom(sb: Super, s: Vfs, op: FsOp, ip: DInode, a: InodeAlloc)
    requires FsOk(sb, s) && op.Create? && ip == NewInode(op.mode, op.uid, op.gid, op.now)
    requires a == InodeAllocated(sb, s.st.vol.disk, s.ibits, ip)
    ensures FsRefines(sb, s, op, Created(s, a, ip))
  {
    AllocatedWell(sb, s, ip, a);
    if a.num == NULL_INODE { CreateRefused(sb, s, op, ip, a); } else { CreateDone(sb, s, op, ip, a); }
  }

  ghost predicate AllocatesInode(sb: Super, s: Vfs, ip: DInode, a: InodeAlloc)
    requires FsOk(sb, s)
  {
    && NextNumber(AbsFs(sb, s), a.num)
    && if a.num == NULL_INODE then a.disk == s.st.vol.disk && a.bits == s.ibits
       else
         && a.num <= sb.ninodes && InRange(s.st.vol.disk, InodeAt(sb, a.num - 1), INODE_SIZE)
         && a.disk == Splice(s.st.vol.disk, InodeAt(sb, a.num - 1), PutInode(ip))
         && Guarded(sb, a.bits) && InUse(sb, a.bits) == InUse(sb, s.ibits) + {a.num as nat}
  }

  lemma AllocatedWell(sb: Super, s: Vfs, ip: DInode, a: InodeAlloc)
    requires FsOk(sb, s) && a == InodeAllocated(sb, s.st.vol.disk, s.ibits, ip)
    ensures AllocatesInode(sb, s, ip, a)
  {
    LeastNumber(sb, s, ip);
    TableThere(sb, s.st);
    AllocatedSlot(sb, s, ip, a);
  }

  lemma AllocatedSlot(sb: Super, s: Vfs, ip: DInode, a: InodeAlloc)
    requires FsOk(sb, s) && a == InodeAllocated(sb, s.st.vol.disk, s.ibits, ip) && NextNumber(AbsFs(sb, s), a.num)
    requires TableOnDevice(sb, s.st.vol.disk) && sb.magic == MAGIC
    ensures AllocatesInode(sb, s, ip, a)
  {
    InodeAllocExact(sb, s.st.vol.disk, s.ibits, ip);
    InodeAllocKeeps(sb, s.st.vol.disk, s.ibits, ip);
  }

  lemma CreateRefused(sb: Super, s: Vfs, op: FsOp, ip: DInode, a: InodeAlloc)
    requires FsOk(sb, s) && op.Create? && AllocatesInode(sb, s, ip, a) && a.num == NULL_INODE
    ensures FsRefines(sb, s, op, Created(s, a, ip))
  {
    assert WithDisk(s, s.st.vol.disk).(ibits := s.ibits) == s;
  }

  lemma CreateDone(sb: Super, s: Vfs, op: FsOp, ip: DInode, a: InodeAlloc)
    requires FsOk(sb, s) && op.Create? && ip == NewInode(op.mode, op.uid, op.gid, op.now)
    requires AllocatesInode(sb, s, ip, a) && a.num != NULL_INODE
    ensures FsRefines(sb, s, op, Created(s, a, ip))
  {
    NewFile(sb, s, ip, a, Created(s, a, ip).s.st);
  }

  lemma WriteBackStep(sb: Super, s: Vfs, f: nat)
    requires FsOk(sb, s)
    ensures FsRefines(sb, s, WriteBack(f), Exec(sb, s, WriteBack(f)))
  {
    if f < |s.st.inodes| {
      var st' := Exec(sb, s, WriteBack(f)).s.st;
      SlotsOnDevice(sb, s.st.vol, s.nums[f] - 1);
      SlotWritten(sb, s.st, s.st.inodes[f], s.nums[f], st');
      WriteBackDone(sb, s, f, st');
    }
  }

  lemma WriteBackDone(sb: Super, s: Vfs, f: nat, st': Files)
    requires FsOk(sb, s) && f < |s.st.inodes| && st'.inodes == s.st.inodes && RunInv(sb, st')
    requires AbsIs(sb, st', Abs(sb, s.st).(table := WithInode(InodeTable(sb, s.st.vol.disk), s.nums[f], s.st.inodes[f])))
    ensures FsRefines(sb, s, WriteBack(f), Turn(s.(st := st'), Report(Code(0), s.st.inodes[f])))
  {}

  lemma FreeNumberStep(sb: Super, s: Vfs, num: u16)
    requires FsOk(sb, s)
    ensures FsRefines(sb, s, FreeNumber(num), Exec(sb, s, FreeNumber(num)))
  {
    InodeFreeExact(sb, s.ibits, num);
    assert num in AllNumbers(sb) <==> 0 < num <= sb.ninodes;
  }

  lemma FsStep(sb: Super, s: Vfs, op: FsOp)
    requires FsOk(sb, s) && FsAble(sb, s, op)
    ensures FsRefines(sb, s, op, Exec(sb, s, op))
  {
    match op
    case OnFiles(o) => FilesStep(sb, s, o);
    case Create(_, _, _, _) => CreateStep(sb, s, op);
    case WriteBack(f) => WriteBackStep(sb, s, f);
    case FreeNumber(num) => FreeNumberStep(sb, s, num);
  }

  // ----- runs

  datatype Story = Story(s: Vfs, reports: seq<Report>)

  ghost predicate AbleAll(sb: Super, s: Vfs, ops: seq<FsOp>)
    requires FsOk(sb, s)
    decreases |ops|
  {
    ops != [] ==> FsAble(sb, s, ops[0]) && (FsStep(sb, s, ops[0]); AbleAll(sb, Exec(sb, s, ops[0]).s, ops[1..]))
  }

  ghost function RunAll(sb: Super, s: Vfs, ops: seq<FsOp>): (h: Story)
    requires FsOk(sb, s) && AbleAll(sb, s, ops)
    ensures |h.reports| == |ops|
    decreases |ops|
  {
    if ops == [] then Story(s, [])
    else
      FsStep(sb, s, ops[0]);
      var t := Exec(sb, s, ops[0]);
      var h := RunAll(sb, t.s, ops[1..]);
      Story(h.s, [t.r] + h.reports)
  }

  ghost function ReplayAll(a: World, ops: seq<FsOp>, rs: seq<Report>): World
    requires |rs| == |ops|
    decreases |ops|
  {
    if ops == [] then a else ReplayAll(FsEffect(a, ops[0], rs[0]), ops[1..], rs[1..])
  }

  ghost predicate CorrectAll(sb: Super, a: World, ops: seq<FsOp>, rs: seq<Report>)
    requires |rs| == |ops|
    decreases |ops|
  {
    ops != [] ==> FsCorrect(sb, a, ops[0], rs[0]) && CorrectAll(sb, FsEffect(a, ops[0], rs[0]), ops[1..], rs[1..])
  }

  /** In every run of all operations, while each finds the blocks it needs, the raw bytes behave as the
      abstract file system: files and directories come into being with the least free number, names
      are added and removed, inodes written back, numbers freed. */
  lemma {:induction false} RunRefinesFs(sb: Super, s: Vfs, ops: seq<FsOp>)
    requires FsOk(sb, s) && AbleAll(sb, s, ops)
    ensures var h := RunAll(sb, s, ops);
      && FsOk(sb, h.s)
      && CorrectAll(sb, AbsFs(sb, s), ops, h.reports)
      && AbsFs(sb, h.s) == ReplayAll(AbsFs(sb, s), ops, h.reports)
    decreases |ops|
  {
    if ops != [] {
      FsStep(sb, s, ops[0]);
      var t := Exec(sb, s, ops[0]);
      RunRefinesFs(sb, t.s, ops[1..]);
      assert RunAll(sb, s, ops).reports[1..] == RunAll(sb, t.s, ops[1..]).reports;
    }
  }

  // ----- the sizes of the maps

  ghost predicate SameSizes(s: Vfs, t: Vfs) { |t.st.vol.zmap| == |s.st.vol.zmap| && |t.ibits| == |s.ibits| }

  lemma AddedZones(sb: Super, vol: Volume, ip: DInode, name: CString, num: u16)
    ensures |Added(sb, vol, ip, name, num).vol.zmap| == |vol.zmap|
  {
    if |name| <= NAME_MAX { GrownZones(NextBlock(sb, vol, ip), Length(ip), NewEntry(name, num)); }
  }

  lemma ExecSizes(sb: Super, s: Vfs, op: FsOp)
    requires |s.nums| == |s.st.inodes|
    ensures SameSizes(s, Exec(sb, s, op).s)
  {
    if op.OnFiles? && op.op.AddName? && op.op.dir < |s.st.inodes| {
      AddedZones(sb, s.st.vol, s.st.inodes[op.op.dir], op.op.name, op.op.num);
    }
  }

  lemma {:induction false} RunSizes(sb: Super, s: Vfs, ops: seq<FsOp>)
    requires FsOk(sb, s) && AbleAll(sb, s, ops)
    ensures SameSizes(s, RunAll(sb, s, ops).s)
    decreases |ops|
  {
    if ops != [] {
      FsStep(sb, s, ops[0]);
      ExecSizes(sb, s, ops[0]);
      RunSizes(sb, Exec(sb, s, ops[0]).s, ops[1..]);
    }
  }

  // ----- numbers

  /** Every file in memory has a number of its own, and it is in use. */
  ghost predicate Numbered(a: World)
  {
    && |a.mem| == |a.nums| && (forall f: nat | f < |a.nums| :: a.nums[f] as nat in a.used)
    && forall f: nat, g: nat | f < g < |a.nums| :: a.nums[f] != a.nums[g]
  }

  /** That stays so unless the number of a file in memory is freed. */
  lemma NumbersStay(sb: Super, a: World, op: FsOp, r: Report)
    requires Numbered(a) && FsCorrect(sb, a, op, r) && (op.FreeNumber? ==> op.num !in a.nums)
    ensures Numbered(FsEffect(a, op, r))
  {}

  /** No operation of the run frees the number of a file in memory. */
  ghost predicate FreesClosed(a: World, ops: seq<FsOp>, rs: seq<Report>)
    requires |rs| == |ops|
    decreases |ops|
  {
    ops != [] ==>
      && (ops[0].FreeNumber? ==> ops[0].num !in a.nums)
      && FreesClosed(FsEffect(a, ops[0], rs[0]), ops[1..], rs[1..])
  }

  lemma {:induction false} RunNumbered(sb: Super, a: World, ops: seq<FsOp>, rs: seq<Report>)
    requires |rs| == |ops| && Numbered(a) && CorrectAll(sb, a, ops, rs) && FreesClosed(a, ops, rs)
    ensures Numbered(ReplayAll(a, ops, rs))
    decreases |ops|
  {
    if ops != [] {
      NumbersStay(sb, a, ops[0], rs[0]);
      RunNumbered(sb, FsEffect(a, ops[0], rs[0]), ops[1..], rs[1..]);
    }
  }

  // ----- persistence

  /** The file system after the first `k` files were written back. */
  function Saved(sb: Super, s: Vfs, k: nat): (t: Vfs)
    requires |s.nums| == |s.st.inodes| && k <= |s.nums|
    ensures t.st.inodes == s.st.inodes && t.nums == s.nums && t.ibits == s.ibits && t.st.vol.zmap == s.st.vol.zmap
    decreases k
  {
    if k == 0 then s else Exec(sb, Saved(sb, s, k - 1), WriteBack(k - 1)).s
  }

  /** The inode table after the first `k` files were written back. */
  function SavedTable(t: seq<DInode>, mem: seq<DInode>, nums: seq<u16>, k: nat): (r: seq<DInode>)
    requires k <= |nums| == |mem|
    ensures |r| == |t|
    decreases k
  {
    if k == 0 then t else WithInode(SavedTable(t, mem, nums, k - 1), nums[k - 1], mem[k - 1])
  }

  ghost predicate TableIs(sb: Super, disk: Image, t: seq<DInode>) { InodeTable(sb, disk) == t }

  /** `t` is `s` with its first `k` files written back. */
  ghost predicate SavedWell(sb: Super, s: Vfs, t: Vfs, k: nat)
    requires k <= |s.nums| == |s.st.inodes|
  {
    && FsOk(sb, t) && t.st.inodes == s.st.inodes && t.nums == s.nums && Dirs(t.st) == Dirs(s.st)
    && TableIs(sb, t.st.vol.disk, SavedTable(InodeTable(sb, s.st.vol.disk), s.st.inodes, s.nums, k))
  }

  lemma {:induction false} SavedStep(sb: Super, s: Vfs, k: nat)
    requires FsOk(sb, s) && k <= |s.nums|
    ensures SavedWell(sb, s, Saved(sb, s, k), k)
    decreases k
  {
    if k > 0 {
      SavedStep(sb, s, k - 1);
      SavedMore(sb, s, Saved(sb, s, k - 1), Saved(sb, s, k), k);
    }
  }

  lemma {:induction false} SavedMore(sb: Super, s: Vfs, t: Vfs, t': Vfs, k: nat)
    requires |s.nums| == |s.st.inodes| && 0 < k <= |s.nums| && SavedWell(sb, s, t, k - 1)
    requires t' == Exec(sb, t, WriteBack(k - 1)).s
    ensures SavedWell(sb, s, t', k)
  {
    SavedNext(sb, t, k - 1, t', SavedTable(InodeTable(sb, s.st.vol.disk), s.st.inodes, s.nums, k - 1));
  }

  lemma SavedNext(sb: Super, t: Vfs, f: nat, t': Vfs, table: seq<DInode>)
    requires FsOk(sb, t) && f < |t.nums| && t' == Exec(sb, t, WriteBack(f)).s && TableIs(sb, t.st.vol.disk, table)
    ensures FsOk(sb, t') && Dirs(t'.st) == Dirs(t.st)
    ensures TableIs(sb, t'.st.vol.disk, WithInode(table, t.nums[f], t.st.inodes[f]))
  {
    SlotsOnDevice(sb, t.st.vol, t.nums[f] - 1);
    SlotWritten(sb, t.st, t.st.inodes[f], t.nums[f], t'.st);
    AbsParts(sb, t.st, t'.st, WithInode(InodeTable(sb, t.st.vol.disk), t.nums[f], t.st.inodes[f]));
  }

  lemma AbsParts(sb: Super, st: Files, st': Files, table: seq<DInode>)
    requires AbsIs(sb, st', Abs(sb, st).(table := table))
    ensures Dirs(st') == Dirs(st) && InodeTable(sb, st'.vol.disk) == table
  {}

  /** The slot of a number that was written back holds the inode of the last file with that number. */
  lemma {:induction false} SavedSlot(t: seq<DInode>, mem: seq<DInode>, nums: seq<u16>, k: nat, f: nat)
    requires f < k <= |nums| == |mem| && 0 < nums[f] <= |t|
    ensures exists g: nat :: f <= g < k && nums[g] == nums[f] && SavedTable(t, mem, nums, k)[nums[f] - 1] == mem[g]
    decreases k
  {
    if nums[k - 1] == nums[f] {
      assert f <= k - 1 < k && nums[k - 1] == nums[f] && SavedTable(t, mem, nums, k)[nums[f] - 1] == mem[k - 1];
    } else {
      SavedSlot(t, mem, nums, k - 1, f);
      var g: nat :| f <= g < k - 1 && nums[g] == nums[f] && SavedTable(t, mem, nums, k - 1)[nums[f] - 1] == mem[g];
      assert f <= g < k && nums[g] == nums[f] && SavedTable(t, mem, nums, k)[nums[f] - 1] == mem[g];
    }
  }

  /** All files in memory written back, then the superblock and the maps. */
  function SyncAll(sb: Super, s: Vfs): SuperOutcome
    requires |s.nums| == |s.st.inodes| && MapsFit(sb, s.st.vol.zmap, s.ibits)
  {
    SuperStored(sb, Saved(sb, s, |s.nums|).st.vol.disk, s.st.vol.zmap, s.ibits)
  }

  function InodeNumbered(sb: Super, disk: Image, num: u16): DInode
  {
    if num == NULL_INODE then NO_INODE else SlotIn(sb, disk, num - 1)
  }

  /** The file system that mounting `disk` and reading the inodes `nums` brings into memory. */
  function Remounted(disk: Image, nums: seq<u16>): Vfs
    requires SuperLoaded(disk).Mounted?
  {
    var m := SuperLoaded(disk);
    Vfs(Files(Volume(disk, m.zbits), seq(|nums|, f requires 0 <= f < |nums| => InodeNumbered(m.sb, disk, nums[f]))), nums, m.ibits)
  }

  /** No two different inodes in memory have the same number. */
  ghost predicate Unambiguous(mem: seq<DInode>, nums: seq<u16>)
    requires |mem| == |nums|
  {
    forall f: nat, g: nat | f < |nums| && g < |nums| && nums[f] == nums[g] :: mem[f] == mem[g]
  }

  /** What is on the device after everything was written back. */
  lemma SyncedParts(sb: Super, s: Vfs)
    requires FsOk(sb, s) && MapsFit(sb, s.st.vol.zmap, s.ibits) && 0 < sb.ninodes
    ensures var r := SyncAll(sb, s);
      && r.ret == 0 && SuperLoaded(r.disk) == Mounted(sb, s.st.vol.zmap, s.ibits)
      && RunInv(sb, s.st.(vol := s.st.vol.(disk := r.disk))) && Dirs(s.st.(vol := s.st.vol.(disk := r.disk))) == Dirs(s.st)
      && InodeTable(sb, r.disk) == SavedTable(InodeTable(sb, s.st.vol.disk), s.st.inodes, s.nums, |s.nums|)
  {
    var t := Saved(sb, s, |s.nums|);
    SavedStep(sb, s, |s.nums|);
    StoredIsTableOnly(sb, t.st.vol.disk, t.st.vol.zmap, t.ibits);
    RemountKeepsAll(sb, t.st, t.ibits);
    SameTableBytes(sb, t.st, SyncAll(sb, s).disk);
  }

  lemma SameTableBytes(sb: Super, st: Files, disk': Image)
    requires RunInv(sb, st) && forall n: nat | n < sb.ninodes :: SameInode(sb, st.vol.disk, disk', n)
    ensures InodeTable(sb, disk') == InodeTable(sb, st.vol.disk)
  {
    forall n: nat | n < sb.ninodes ensures SlotIn(sb, disk', n) == SlotIn(sb, st.vol.disk, n) {
      assert SameInode(sb, st.vol.disk, disk', n);
    }
  }

  /** Writing back all files, the superblock and the maps, mounting the device and reading the inodes
      again restores every file exactly if no two different inodes have the same number; then the
      whole file system is the same, with the inode table brought up to date. */
  lemma PersistsIff(sb: Super, s: Vfs)
    requires FsOk(sb, s) && MapsFit(sb, s.st.vol.zmap, s.ibits) && 0 < sb.ninodes
    ensures SyncAll(sb, s).ret == 0 && SuperLoaded(SyncAll(sb, s).disk) == Mounted(sb, s.st.vol.zmap, s.ibits)
    ensures var t := Remounted(SyncAll(sb, s).disk, s.nums);
      && (t.st.inodes == s.st.inodes <==> Unambiguous(s.st.inodes, s.nums))
      && (Unambiguous(s.st.inodes, s.nums) ==>
            && FsOk(sb, t)
            && AbsFs(sb, t) == AbsFs(sb, s).(fs := Abs(sb, s.st).(
                 table := SavedTable(InodeTable(sb, s.st.vol.disk), s.st.inodes, s.nums, |s.nums|))))
  {
    SyncedParts(sb, s);
    var d := SyncAll(sb, s).disk;
    ReadBackIff(sb, s, d);
    if Unambiguous(s.st.inodes, s.nums) {
      assert Remounted(d, s.nums) == WithDisk(s, d);
    }
  }

  lemma ReadBackIff(sb: Super, s: Vfs, d: Image)
    requires FsOk(sb, s) && SuperLoaded(d).Mounted? && SuperLoaded(d).sb == sb
    requires InodeTable(sb, d) == SavedTable(InodeTable(sb, s.st.vol.disk), s.st.inodes, s.nums, |s.nums|)
    ensures Remounted(d, s.nums).st.inodes == s.st.inodes <==> Unambiguous(s.st.inodes, s.nums)
  {
    var got := Remounted(d, s.nums).st.inodes;
    forall f: nat | f < |s.nums| ensures got[f] == InodeTable(sb, d)[s.nums[f] - 1] {}
    TableHolds(InodeTable(sb, s.st.vol.disk), InodeTable(sb, d), s.st.inodes, s.nums, got);
  }

  ghost predicate ReadBack(t': seq<DInode>, nums: seq<u16>, got: seq<DInode>)
  {
    |got| == |nums| && forall f: nat | f < |nums| :: 0 < nums[f] <= |t'| && got[f] == t'[nums[f] - 1]
  }

  lemma {:induction false} TableHolds(t: seq<DInode>, t': seq<DInode>, mem: seq<DInode>, nums: seq<u16>, got: seq<DInode>)
    requires |mem| == |nums| && t' == SavedTable(t, mem, nums, |nums|) && ReadBack(t', nums, got)
    ensures got == mem <==> Unambiguous(mem, nums)
  {
    if Unambiguous(mem, nums) { AllReadBack(t, t', mem, nums, got); }
    if got == mem { HeldOnce(t', mem, nums); }
  }

  lemma {:induction false} AllReadBack(t: seq<DInode>, t': seq<DInode>, mem: seq<DInode>, nums: seq<u16>, got: seq<DInode>)
    requires |mem| == |nums| && t' == SavedTable(t, mem, nums, |nums|) && ReadBack(t', nums, got) && Unambiguous(mem, nums)
    ensures got == mem
  {
    forall f: nat | f < |nums| ensures got[f] == mem[f] { SavedFile(t, t', mem, nums, f); }
  }

  lemma {:induction false} SavedFile(t: seq<DInode>, t': seq<DInode>, mem: seq<DInode>, nums: seq<u16>, f: nat)
    requires |mem| == |nums| && t' == SavedTable(t, mem, nums, |nums|) && Unambiguous(mem, nums)
    requires f < |nums| && 0 < nums[f] <= |t'|
    ensures t'[nums[f] - 1] == mem[f]
  {
    SavedSlot(t, mem, nums, |nums|, f);
  }

  lemma HeldOnce(t': seq<DInode>, mem: seq<DInode>, nums: seq<u16>)
    requires |mem| == |nums| && ReadBack(t', nums, mem)
    ensures Unambiguous(mem, nums)
  {}

  /** In particular when every file has a number of its own. */
  lemma NumberedPersists(a: World)
    requires Numbered(a)
    ensures Unambiguous(a.mem, a.nums)
  {}
}
