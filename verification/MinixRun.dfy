/**
  Runs of directory operations and block mappings over a whole volume, refined to an abstract file
  system: a map of maps, directory -> name -> inode number, and the table of inodes.
 */
module MinixRun {
  import opened Disk
  import opened MinixFormat
  import opened SlotTable
  import opened MinixBlocks
  import opened MinixDir

  datatype Op =
    | AddName(dir: nat, name: CString, num: u16)
    | RemoveName(dir: nat, name: CString)
    | MapOffset(file: nat, off: nat, create: bool)

  datatype Step = Step(st: Files, ret: Ret)

  /** What a mapping reports to a caller that does not look at the block number. */
  function MapRet(o: Outcome): Ret
  {
    match o
    case Block(_) => Code(0)
    case Panic => Crash
    case Garbage => Undefined
  }

  /** One operation; an operation on a file that does not exist is refused. */
  function Apply(sb: Super, st: Files, op: Op): (r: Step)
    ensures |r.st.inodes| == |st.inodes|
  {
    match op
    case AddName(f, name, num) =>
      if f < |st.inodes| then
        var r := Added(sb, st.vol, st.inodes[f], name, num);
        Step(Files(r.vol, st.inodes[f := r.ip]), r.ret)
      else Step(st, Code(EINVAL))
    case RemoveName(f, name) =>
      if f < |st.inodes| then
        var r := Removed(sb, st.vol, st.inodes[f], name);
        Step(Files(r.vol, st.inodes[f := r.ip]), r.ret)
      else Step(st, Code(EINVAL))
    case MapOffset(f, off, create) =>
      if f < |st.inodes| then
        var r := Mapped(sb, st.vol, st.inodes[f], off, create);
        Step(Files(r.vol, st.inodes[f := r.ip]), MapRet(r.outcome))
      else Step(st, Code(EINVAL))
  }

  // ----- the abstract file system

  type Tree = map<nat, map<CString, u16>>

  /** The number of files, the directories among them, each as a map, and the inode table. */
  datatype Fs = Fs(files: nat, dirs: Tree, table: seq<DInode>)

  ghost function Dirs(st: Files): Tree
  {
    map f: nat | f < |st.inodes| && IsDir(st.inodes[f].mode) :: AsMap(Entries(st.vol.disk, st.inodes[f]))
  }

  /** The inode table on the device; a slot that is not on the device reads as an empty inode. */
  function SlotIn(sb: Super, disk: Image, n: nat): DInode
  {
    if InRange(disk, InodeAt(sb, n), INODE_SIZE) then InodeIn(sb, disk, n)
    else DInode(0, 0, 0, 0, 0, 0, [0, 0, 0, 0, 0, 0, 0, 0, 0])
  }

  function InodeTable(sb: Super, disk: Image): (t: seq<DInode>)
    ensures |t| == sb.ninodes && forall n: nat | n < |t| :: t[n] == SlotIn(sb, disk, n)
  {
    seq(sb.ninodes, n requires 0 <= n => SlotIn(sb, disk, n))
  }

  ghost function Abs(sb: Super, st: Files): Fs { Fs(|st.inodes|, Dirs(st), InodeTable(sb, st.vol.disk)) }

  /** What an addition returns. */
  ghost function AddCode(a: Fs, f: nat, name: CString, num: u16): int
  {
    if f !in a.dirs then EINVAL
    else if |name| > NAME_MAX then ENAMETOOLONG
    else if num == NULL_INODE then EINVAL
    else if name in a.dirs[f] then EAGAIN
    else 0
  }

  /** The inode is in the table and is no directory with contents. */
  predicate MayUnlink(a: Fs, ino: u16)
  {
    0 < ino <= |a.table| && !(IsDir(a.table[ino - 1].mode) && a.table[ino - 1].size > 0)
  }

  /** What a removal returns. */
  ghost function RemoveCode(a: Fs, f: nat, name: CString): int
  {
    if f !in a.dirs then EINVAL
    else if |name| > NAME_MAX then ENAMETOOLONG
    else if name == DOT then EBUSY
    else if name !in a.dirs[f] then ENOENT
    else if !(0 < a.dirs[f][name] <= |a.table|) then ENOENT
    else if !MayUnlink(a, a.dirs[f][name]) then EBUSY
    else 0
  }

  ghost function Bound(m: map<CString, u16>, name: CString, num: u16): map<CString, u16> { m[name := num] }

  /** One link fewer of inode number `ino`. */
  function WithoutLink(t: seq<DInode>, ino: u16): seq<DInode>
  {
    if 0 < ino <= |t| then t[ino - 1 := OneLinkFewer(t[ino - 1])] else t
  }

  /** What an operation does to the abstract file system. */
  ghost function Effect(a: Fs, op: Op): Fs
  {
    match op
    case AddName(f, name, num) =>
      if AddCode(a, f, name, num) == 0 then a.(dirs := a.dirs[f := Bound(a.dirs[f], name, num)]) else a
    case RemoveName(f, name) =>
      if RemoveCode(a, f, name) == 0 then
        a.(dirs := a.dirs[f := a.dirs[f] - {name}], table := WithoutLink(a.table, a.dirs[f][name]))
      else a
    case MapOffset(_, _, _) => a
  }

  /** Which reports are right: additions and removals return exactly the code of the abstract file
      system; a creating mapping fails only beyond the single-indirect zone. */
  ghost predicate Correct(sb: Super, a: Fs, op: Op, ret: Ret)
  {
    match op
    case AddName(f, name, num) => ret == Code(AddCode(a, f, name, num))
    case RemoveName(f, name) => ret == Code(RemoveCode(a, f, name))
    case MapOffset(f, off, create) =>
      if f >= a.files then ret == Code(EINVAL)
      else if off % 0x1_0000_0000 >= sb.maxSize then ret == Code(0)
      else if LogicOf(off) >= LOGICAL then ret == Crash
      else (create ==> ret == Code(0)) && ret != Undefined
  }

  // ----- one step

  /** All zone bits belong to blocks of the device. */
  ghost predicate RunInv(sb: Super, st: Files)
  {
    FsInv(sb, st.vol, st.inodes) && ZonesInside(sb, st.vol.zmap) && |st.vol.zmap| <= 0x1_0000
  }

  /** The mapping call gets as far as looking for a block, and may create one. */
  predicate Creating(sb: Super, ip: DInode, off: nat, create: bool)
  {
    off % 0x1_0000_0000 < sb.maxSize && LogicOf(off) < LOGICAL && (create || off % 0x1_0000_0000 < ip.size)
  }

  /** There is room for exactly the blocks that this operation needs; a removal needs none. */
  ghost predicate Able(sb: Super, st: Files, op: Op)
  {
    match op
    case AddName(f, name, num) =>
      f < |st.inodes| && AddCode(Abs(sb, st), f, name, num) == 0 ==> CanAdd(sb, st.vol, st.inodes[f])
    case RemoveName(_, _) => true
    case MapOffset(f, off, create) =>
      f < |st.inodes| && Creating(sb, st.inodes[f], off, create) ==>
        Room(sb, st.vol.zmap, Need(st.vol.disk, st.inodes[f], LogicOf(off)))
  }

  /** The bytes of the inode table are as before. */
  ghost predicate BelowSame(sb: Super, disk: Image, disk': Image)
  {
    |disk'| == |disk| && forall i: nat | i < |disk| && 1024 <= i < sb.firstData as int * 1024 :: disk'[i] == disk[i]
  }

  lemma BelowSameTable(sb: Super, disk: Image, disk': Image)
    requires InodesFit(sb) && BelowSame(sb, disk, disk')
    ensures InodeTable(sb, disk') == InodeTable(sb, disk)
  {
    forall n: nat | n < sb.ninodes ensures SlotIn(sb, disk', n) == SlotIn(sb, disk, n) {
      InodeSlotPlace(sb, n);
      if InRange(disk, InodeAt(sb, n), INODE_SIZE) { SameBytes(sb, disk, disk', InodeAt(sb, n)); }
    }
  }

  lemma SameBytes(sb: Super, disk: Image, disk': Image, at: nat)
    requires BelowSame(sb, disk, disk') && 1024 <= at && at + INODE_SIZE <= sb.firstData as int * 1024
    requires at + INODE_SIZE <= |disk|
    ensures disk'[at..at + INODE_SIZE] == disk[at..at + INODE_SIZE]
  {}

  /** Mapping blocks does not touch the inode table. */
  lemma MappingBelow(sb: Super, vol: Volume, files: seq<DInode>, f: nat, r: Mapping)
    requires GoodMapping(sb, vol, files, f, r)
    ensures BelowSame(sb, vol.disk, r.vol.disk)
  {
    var files' := files[f := r.ip];
    assert Ref(r.vol.disk, files'[f], INDIRECT) == r.ip.zones[ZONE_SINGLE];
    forall i: nat | i < |vol.disk| && 1024 <= i < sb.firstData as int * 1024 ensures r.vol.disk[i] == vol.disk[i] {
      assert !InBlock(r.ip.zones[ZONE_SINGLE], i);
    }
  }

  /** Storing an entry in a data block does not either. */
  lemma StoredBelow(sb: Super, vol: Volume, ip: DInode, off: nat, d: Dirent)
    requires sb.firstData as int * 1024 <= off && off + DIRENT_SIZE <= |vol.disk|
    ensures BelowSame(sb, vol.disk, Stored(vol, ip, off, d).vol.disk)
  {}

  lemma {:induction false} AddedBelow(sb: Super, vol: Volume, files: seq<DInode>, f: nat, name: CString, num: u16)
    requires FsInv(sb, vol, files) && f < |files| && IsDir(files[f].mode) && |name| <= NAME_MAX && num != NULL_INODE
    requires CanAdd(sb, vol, files[f]) && Find(Entries(vol.disk, files[f]), name) == Length(files[f])
    ensures BelowSame(sb, vol.disk, Added(sb, vol, files[f], name, num).vol.disk)
  {
    var t := Entries(vol.disk, files[f]);
    assert DirOk(vol.disk, files[f]);
    if LastFree(t) >= 0 {
      var k := LastFree(t);
      assert Present(vol.disk, files[f], k);
      PresentOwned(sb, vol, files, f, k);
      StoredBelow(sb, vol, files[f], EntryAt(vol.disk, files[f], k), NewEntry(name, num));
    } else {
      var m := NextBlock(sb, vol, files[f]);
      NextIsGood(sb, vol, files, f);
      MappingBelow(sb, vol, files, f, m);
      StoredBelow(sb, m.vol, Enlarged(m.ip), Place(m.outcome.num, Length(files[f])), NewEntry(name, num));
    }
  }

  /** The block for the next entry, when there is room: a good mapping to a data block. */
  lemma {:induction false} NextIsGood(sb: Super, vol: Volume, files: seq<DInode>, f: nat)
    requires FsInv(sb, vol, files) && f < |files| && IsDir(files[f].mode)
    requires LastFree(Entries(vol.disk, files[f])) < 0 && CanAdd(sb, vol, files[f])
    ensures var m := NextBlock(sb, vol, files[f]);
      && GoodMapping(sb, vol, files, f, m) && m.outcome.Block?
      && sb.firstData <= m.outcome.num && (m.outcome.num as int + 1) * 1024 <= |m.vol.disk|
  {
    var l := Length(files[f]) / 64;
    NextBlockIs(sb, vol, files[f]);
    RoomDelivers(sb, vol, files, f, l);
    BlockMappedStep(sb, vol, files, f, l, true);
    BlockMappedFrame(sb, vol, files[f], l, true);
  }

  lemma {:induction false} AddedInside(sb: Super, vol: Volume, files: seq<DInode>, f: nat, name: CString, num: u16)
    requires FsInv(sb, vol, files) && f < |files| && IsDir(files[f].mode) && |name| <= NAME_MAX && num != NULL_INODE
    requires CanAdd(sb, vol, files[f]) && ZonesInside(sb, vol.zmap) && |vol.zmap| <= 0x1_0000
    ensures var r := Added(sb, vol, files[f], name, num); |r.vol.zmap| == |vol.zmap| && ZonesInside(sb, r.vol.zmap)
  {
    if LastFree(Entries(vol.disk, files[f])) < 0 {
      NextBlockIs(sb, vol, files[f]);
      MappedInside(sb, vol, files, f, Length(files[f]) / 64);
      GrownZones(NextBlock(sb, vol, files[f]), Length(files[f]), NewEntry(name, num));
    }
  }

  lemma GrownZones(m: Mapping, n: nat, d: Dirent)
    ensures Grown(m, n, d).vol.zmap == m.vol.zmap
  {}

  /** The abstract view after directory `f` became `m` and no other directory changed. */
  lemma DirsAre(st: Files, st': Files, f: nat, m: map<CString, u16>)
    requires |st'.inodes| == |st.inodes| && f < |st.inodes|
    requires IsDir(st.inodes[f].mode) && IsDir(st'.inodes[f].mode)
    requires AsMap(Entries(st'.vol.disk, st'.inodes[f])) == m
    requires forall g: nat | g < |st.inodes| && g != f && !IsDir(st.inodes[g].mode) :: !IsDir(st'.inodes[g].mode)
    requires OthersSame(st.vol.disk, st.inodes, st'.vol.disk, st'.inodes, f)
    ensures Dirs(st') == Dirs(st)[f := m]
  {}

  /** The operation refines its abstract counterpart. */
  ghost predicate Refines(sb: Super, st: Files, op: Op, s: Step)
  {
    RunInv(sb, s.st) && Correct(sb, Abs(sb, st), op, s.ret) && Abs(sb, s.st) == Effect(Abs(sb, st), op)
  }

  lemma {:induction false} AddStep(sb: Super, st: Files, f: nat, name: CString, num: u16)
    requires RunInv(sb, st) && Able(sb, st, AddName(f, name, num))
    ensures Refines(sb, st, AddName(f, name, num), Apply(sb, st, AddName(f, name, num)))
  {
    if && f < |st.inodes| && IsDir(st.inodes[f].mode) && |name| <= NAME_MAX && num != NULL_INODE
       && name !in AsMap(Entries(st.vol.disk, st.inodes[f])) {
      AddFresh(sb, st, f, name, num);
    } else {
      AddRefused(sb, st, f, name, num);
    }
  }

  lemma {:induction false} AddRefused(sb: Super, st: Files, f: nat, name: CString, num: u16)
    requires RunInv(sb, st)
    requires f < |st.inodes| && IsDir(st.inodes[f].mode) && |name| <= NAME_MAX && num != NULL_INODE ==>
      name in AsMap(Entries(st.vol.disk, st.inodes[f]))
    ensures Refines(sb, st, AddName(f, name, num), Apply(sb, st, AddName(f, name, num)))
  {
    if f < |st.inodes| {
      AddedNothing(sb, st, f, name, num);
      assert st.inodes[f := st.inodes[f]] == st.inodes;
    }
    RefusedIs(sb, st, f, name, num);
  }

  lemma {:induction false} AddedNothing(sb: Super, st: Files, f: nat, name: CString, num: u16)
    requires RunInv(sb, st) && f < |st.inodes|
    requires IsDir(st.inodes[f].mode) && |name| <= NAME_MAX && num != NULL_INODE ==>
      name in AsMap(Entries(st.vol.disk, st.inodes[f]))
    ensures Added(sb, st.vol, st.inodes[f], name, num)
         == DirResult(st.vol, st.inodes[f], Code(AddCode(Abs(sb, st), f, name, num)))
  {
    if IsDir(st.inodes[f].mode) {
      assert DirOk(st.vol.disk, st.inodes[f]);
      FindIsLookup(Entries(st.vol.disk, st.inodes[f]), name);
    }
  }

  lemma RefusedIs(sb: Super, st: Files, f: nat, name: CString, num: u16)
    requires RunInv(sb, st)
    requires f < |st.inodes| && IsDir(st.inodes[f].mode) && |name| <= NAME_MAX && num != NULL_INODE ==>
      name in AsMap(Entries(st.vol.disk, st.inodes[f]))
    ensures Refines(sb, st, AddName(f, name, num), Step(st, Code(AddCode(Abs(sb, st), f, name, num))))
  {}

  lemma {:induction false} AddFresh(sb: Super, st: Files, f: nat, name: CString, num: u16)
    requires RunInv(sb, st) && f < |st.inodes| && IsDir(st.inodes[f].mode) && |name| <= NAME_MAX && num != NULL_INODE
    requires name !in AsMap(Entries(st.vol.disk, st.inodes[f])) && CanAdd(sb, st.vol, st.inodes[f])
    ensures Refines(sb, st, AddName(f, name, num), Apply(sb, st, AddName(f, name, num)))
  {
    var ip := st.inodes[f];
    var r := Added(sb, st.vol, ip, name, num);
    assert DirOk(st.vol.disk, st.inodes[f]);
    FindIsLookup(Entries(st.vol.disk, ip), name);
    AddExtendsMap(sb, st.vol, st.inodes, f, name, num);
    AddedMode(sb, st.vol, ip, name, num);
    AddedBelow(sb, st.vol, st.inodes, f, name, num);
    AddedInside(sb, st.vol, st.inodes, f, name, num);
    AddedIs(sb, st, f, name, num, r);
  }

  lemma AddedIs(sb: Super, st: Files, f: nat, name: CString, num: u16, r: DirResult)
    requires RunInv(sb, st) && f < |st.inodes| && IsDir(st.inodes[f].mode) && |name| <= NAME_MAX && num != NULL_INODE
    requires name !in AsMap(Entries(st.vol.disk, st.inodes[f])) && r.ret == Code(0) && IsDir(r.ip.mode)
    requires FsInv(sb, r.vol, st.inodes[f := r.ip]) && ZonesInside(sb, r.vol.zmap) && |r.vol.zmap| == |st.vol.zmap|
    requires OthersSame(st.vol.disk, st.inodes, r.vol.disk, st.inodes[f := r.ip], f)
    requires AsMap(Entries(r.vol.disk, r.ip)) == AsMap(Entries(st.vol.disk, st.inodes[f]))[name := num]
    requires BelowSame(sb, st.vol.disk, r.vol.disk)
    ensures Refines(sb, st, AddName(f, name, num), Step(Files(r.vol, st.inodes[f := r.ip]), r.ret))
  {
    BelowSameTable(sb, st.vol.disk, r.vol.disk);
    DirsAre(st, Files(r.vol, st.inodes[f := r.ip]), f, AsMap(Entries(r.vol.disk, r.ip)));
  }

  lemma AddedMode(sb: Super, vol: Volume, ip: DInode, name: CString, num: u16)
    ensures Added(sb, vol, ip, name, num).ip.mode == ip.mode
  {
    MappedFrame(sb, vol, ip, Length(ip) * 16, true);
    if |name| <= NAME_MAX { GrownMode(NextBlock(sb, vol, ip), Length(ip), NewEntry(name, num)); }
  }

  lemma GrownMode(m: Mapping, n: nat, d: Dirent)
    ensures Grown(m, n, d).ip.mode == m.ip.mode
  {}

  /** Every inode slot of a sound volume is on the device. */
  lemma SlotsOnDevice(sb: Super, vol: Volume, n: nat)
    requires Fits(sb, vol) && InodesFit(sb) && n < sb.ninodes
    ensures InRange(vol.disk, InodeAt(sb, n), INODE_SIZE)
  {
    InodeSlotPlace(sb, n);
  }

  /** The table after a removal. */
  lemma LinkDroppedTable(sb: Super, vol: Volume, disk': Image, ino: u16)
    requires Fits(sb, vol) && InodesFit(sb) && 0 < ino <= sb.ninodes && LinkDropped(sb, vol.disk, disk', ino)
    ensures InodeTable(sb, disk') == WithoutLink(InodeTable(sb, vol.disk), ino)
  {
    forall n: nat | n < sb.ninodes
      ensures InodeTable(sb, disk')[n] == WithoutLink(InodeTable(sb, vol.disk), ino)[n]
    {
      LinkDroppedSlot(sb, vol, disk', ino, n);
    }
  }

  lemma LinkDroppedSlot(sb: Super, vol: Volume, disk': Image, ino: u16, n: nat)
    requires Fits(sb, vol) && InodesFit(sb) && 0 < ino <= sb.ninodes && LinkDropped(sb, vol.disk, disk', ino)
    requires n < sb.ninodes
    ensures SlotIn(sb, disk', n) == if n == ino - 1 then OneLinkFewer(SlotIn(sb, vol.disk, n)) else SlotIn(sb, vol.disk, n)
  {
    SlotsOnDevice(sb, vol, n);
  }

  /** What the second half of a removal returns. */
  function TailCode(table: seq<DInode>, ino: u16): int
  {
    if !(0 < ino <= |table|) then ENOENT
    else if IsDir(table[ino - 1].mode) && table[ino - 1].size > 0 then EBUSY
    else 0
  }

  lemma UnlinkTailCode(sb: Super, vol: Volume, ino: u16, at: nat)
    requires Fits(sb, vol) && InodesFit(sb) && at + DIRENT_SIZE <= |vol.disk|
    ensures UnlinkTail(sb, vol.disk, ino, at).ret == Code(TailCode(InodeTable(sb, vol.disk), ino))
  {
    if 0 < ino <= sb.ninodes { SlotsOnDevice(sb, vol, ino - 1); }
  }

  /** The code of a removal is that of the abstract file system. */
  lemma {:induction false} RemovedCode(sb: Super, st: Files, f: nat, name: CString)
    requires FsInv(sb, st.vol, st.inodes) && f < |st.inodes| && IsDir(st.inodes[f].mode)
    requires |name| <= NAME_MAX && name != DOT
    ensures Removed(sb, st.vol, st.inodes[f], name).ret == Code(RemoveCode(Abs(sb, st), f, name))
  {
    var ip, t := st.inodes[f], Entries(st.vol.disk, st.inodes[f]);
    var k := Find(t, name);
    assert DirOk(st.vol.disk, st.inodes[f]);
    FindIsLookup(t, name);
    RemovedSplits(sb, st.vol, ip, name);
    if k < |t| { UnlinkTailCode(sb, st.vol, t[k].value, EntryAt(st.vol.disk, ip, k)); }
    CodeIs(Abs(sb, st), f, name, AsMap(t));
  }

  lemma CodeIs(a: Fs, f: nat, name: CString, m: map<CString, u16>)
    requires f in a.dirs && a.dirs[f] == m && |name| <= NAME_MAX && name != DOT
    ensures RemoveCode(a, f, name) == if name in m then TailCode(a.table, m[name]) else ENOENT
  {}

  lemma {:induction false} RemoveStep(sb: Super, st: Files, f: nat, name: CString)
    requires RunInv(sb, st)
    ensures Refines(sb, st, RemoveName(f, name), Apply(sb, st, RemoveName(f, name)))
  {
    if f < |st.inodes| {
      assert st.inodes[f := st.inodes[f]] == st.inodes;
      if IsDir(st.inodes[f].mode) && |name| <= NAME_MAX && name != DOT {
        RemoveShrinksMap(sb, st.vol, st.inodes, f, name);
        RemovedCode(sb, st, f, name);
        var r := Removed(sb, st.vol, st.inodes[f], name);
        if r.ret == Code(0) { RemovedIs(sb, st, f, name, r.vol, AsMap(Entries(st.vol.disk, st.inodes[f]))); }
      }
    }
  }

  lemma RemovedIs(sb: Super, st: Files, f: nat, name: CString, vol': Volume, before: map<CString, u16>)
    requires RunInv(sb, st) && f < |st.inodes| && IsDir(st.inodes[f].mode)
    requires before == AsMap(Entries(st.vol.disk, st.inodes[f])) && RemoveCode(Abs(sb, st), f, name) == 0
    requires vol'.zmap == st.vol.zmap && FsInv(sb, vol', st.inodes)
    requires OthersSame(st.vol.disk, st.inodes, vol'.disk, st.inodes, f)
    requires name in before && AsMap(Entries(vol'.disk, st.inodes[f])) == before - {name}
    requires LinkDropped(sb, st.vol.disk, vol'.disk, before[name])
    ensures Refines(sb, st, RemoveName(f, name), Step(Files(vol', st.inodes), Code(0)))
  {
    assert f in Dirs(st) && Dirs(st)[f] == before;
    EffectOfRemove(Abs(sb, st), f, name, before);
    AbsAfterRemove(sb, st, f, name, vol', before);
  }

  lemma AbsAfterRemove(sb: Super, st: Files, f: nat, name: CString, vol': Volume, before: map<CString, u16>)
    requires RunInv(sb, st) && f < |st.inodes| && IsDir(st.inodes[f].mode)
    requires vol'.zmap == st.vol.zmap && FsInv(sb, vol', st.inodes)
    requires OthersSame(st.vol.disk, st.inodes, vol'.disk, st.inodes, f)
    requires name in before && AsMap(Entries(vol'.disk, st.inodes[f])) == before - {name}
    requires 0 < before[name] <= sb.ninodes && LinkDropped(sb, st.vol.disk, vol'.disk, before[name])
    ensures Abs(sb, Files(vol', st.inodes))
         == Fs(|st.inodes|, Dirs(st)[f := before - {name}], WithoutLink(Abs(sb, st).table, before[name]))
  {
    LinkDroppedTable(sb, st.vol, vol'.disk, before[name]);
    DirsAre(st, Files(vol', st.inodes), f, before - {name});
  }

  lemma EffectOfRemove(a: Fs, f: nat, name: CString, m: map<CString, u16>)
    requires RemoveCode(a, f, name) == 0 && f in a.dirs && a.dirs[f] == m && name in m
    ensures Effect(a, RemoveName(f, name)) == Fs(a.files, a.dirs[f := m - {name}], WithoutLink(a.table, m[name]))
  {}

  lemma MapStep(sb: Super, st: Files, f: nat, off: nat, create: bool)
    requires RunInv(sb, st) && Able(sb, st, MapOffset(f, off, create))
    ensures Refines(sb, st, MapOffset(f, off, create), Apply(sb, st, MapOffset(f, off, create)))
  {
    if f < |st.inodes| {
      var ip := st.inodes[f];
      assert st.inodes[f := ip] == st.inodes;
      if Creating(sb, ip, off, create) {
        MapCreating(sb, st, f, off, create);
      } else if off % 0x1_0000_0000 < sb.maxSize && LogicOf(off) < LOGICAL {
        MappedNothing(sb, st.vol, ip, LogicOf(off));
        assert Ref(st.vol.disk, st.inodes[f], INDIRECT) == ip.zones[ZONE_SINGLE];
      }
    }
  }

  lemma MapCreating(sb: Super, st: Files, f: nat, off: nat, create: bool)
    requires RunInv(sb, st) && f < |st.inodes| && Creating(sb, st.inodes[f], off, create)
    requires Room(sb, st.vol.zmap, Need(st.vol.disk, st.inodes[f], LogicOf(off)))
    ensures Refines(sb, st, MapOffset(f, off, create), Apply(sb, st, MapOffset(f, off, create)))
  {
    var r := Mapped(sb, st.vol, st.inodes[f], off, create);
    RoomDelivers(sb, st.vol, st.inodes, f, LogicOf(off));
    MappedInside(sb, st.vol, st.inodes, f, LogicOf(off));
    MappedIsGood(sb, st.vol, st.inodes, f, off, create);
    MapIs(sb, st, f, off, create, r);
  }

  lemma MapIs(sb: Super, st: Files, f: nat, off: nat, create: bool, r: Mapping)
    requires RunInv(sb, st) && f < |st.inodes| && LogicOf(off) < LOGICAL
    requires GoodMapping(sb, st.vol, st.inodes, f, r) && r.outcome.Block?
    requires ZonesInside(sb, r.vol.zmap) && |r.vol.zmap| == |st.vol.zmap|
    ensures Refines(sb, st, MapOffset(f, off, create), Step(Files(r.vol, st.inodes[f := r.ip]), MapRet(r.outcome)))
  {
    MappingKeepsDirs(sb, st.vol, st.inodes, f, r);
    MappingBelow(sb, st.vol, st.inodes, f, r);
    BelowSameTable(sb, st.vol.disk, r.vol.disk);
    assert forall g: nat | g < |st.inodes| :: st.inodes[f := r.ip][g].mode == st.inodes[g].mode;
  }

  lemma ApplyStep(sb: Super, st: Files, op: Op)
    requires RunInv(sb, st) && Able(sb, st, op)
    ensures Refines(sb, st, op, Apply(sb, st, op))
  {
    match op
    case AddName(f, name, num) => AddStep(sb, st, f, name, num);
    case RemoveName(f, name) => RemoveStep(sb, st, f, name);
    case MapOffset(f, off, create) => MapStep(sb, st, f, off, create);
  }

  // ----- runs

  datatype Trace = Trace(st: Files, rets: seq<Ret>)

  function RunOps(sb: Super, st: Files, ops: seq<Op>): (r: Trace)
    ensures |r.rets| == |ops|
    decreases |ops|
  {
    if ops == [] then Trace(st, [])
    else
      var s := Apply(sb, st, ops[0]);
      var r := RunOps(sb, s.st, ops[1..]);
      Trace(r.st, [s.ret] + r.rets)
  }

  /** Every operation of the run finds the free blocks it needs. */
  ghost predicate AbleAlong(sb: Super, st: Files, ops: seq<Op>)
    decreases |ops|
  {
    ops != [] ==> Able(sb, st, ops[0]) && AbleAlong(sb, Apply(sb, st, ops[0]).st, ops[1..])
  }

  /** The abstract file system after a run. */
  ghost function Replay(a: Fs, ops: seq<Op>): Fs
    decreases |ops|
  {
    if ops == [] then a else Replay(Effect(a, ops[0]), ops[1..])
  }

  ghost predicate AllCorrect(sb: Super, a: Fs, ops: seq<Op>, rets: seq<Ret>)
    requires |rets| == |ops|
    decreases |ops|
  {
    ops != [] ==> Correct(sb, a, ops[0], rets[0]) && AllCorrect(sb, Effect(a, ops[0]), ops[1..], rets[1..])
  }

  /** In every run over any number of files and directories, while every operation finds the blocks it
      needs, the raw disk bytes behave as the abstract file system: additions and removals return its
      codes, and directories and inode table afterwards are those of the abstract run. */
  lemma {:induction false} RunRefinesTree(sb: Super, st: Files, ops: seq<Op>)
    requires RunInv(sb, st) && AbleAlong(sb, st, ops)
    ensures var r := RunOps(sb, st, ops);
      && RunInv(sb, r.st)
      && AllCorrect(sb, Abs(sb, st), ops, r.rets)
      && Abs(sb, r.st) == Replay(Abs(sb, st), ops)
    decreases |ops|
  {
    if ops != [] {
      var s := Apply(sb, st, ops[0]);
      ApplyStep(sb, st, ops[0]);
      RunRefinesTree(sb, s.st, ops[1..]);
      var r := RunOps(sb, s.st, ops[1..]);
      assert ([s.ret] + r.rets)[1..] == r.rets;
    }
  }
}
