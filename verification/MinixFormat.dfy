/**
  On-disk structures of the MINIX file system (include/fs/minix.h): superblock, inodes and
  directory entries, as packed little-endian records.
 */
module MinixFormat {
  import opened Disk

  const BLOCK := 1024

  const MAGIC := 0x137f

  const NULL_BLOCK := 0

  const NULL_INODE := 0

  const ROOT_INODE := 1

  /** MINIX_NR_ZONES_DIRECT, MINIX_NR_SINGLE and the index of the single indirect zone. */
  const DIRECT := 7
  const SINGLE := 512
  const ZONE_SINGLE := 7

  const NAME_MAX := 14

  /** sizeof(struct d_superblock), sizeof(struct d_inode), sizeof(struct d_dirent). */
  const SUPER_SIZE := 18
  const INODE_SIZE := 32
  const DIRENT_SIZE := 16

  datatype Super = Super(
    ninodes: u16,
    nblocks: u16,
    imapBlocks: u16,
    bmapBlocks: u16,
    firstData: u16,
    unused: u16,
    maxSize: u32,
    magic: u16)

  type Zones = z: seq<u16> | |z| == 9 witness [0, 0, 0, 0, 0, 0, 0, 0, 0]

  datatype DInode = DInode(
    mode: u16,
    uid: u16,
    size: u32,
    time: u32,
    gid: byte,
    nlinks: byte,
    zones: Zones)

  type RawName = s: Image | |s| == 14 witness [0, 0, 0, 0, 0, 0, 0, 0, 0, 0, 0, 0, 0, 0]

  datatype Dirent = Dirent(ino: u16, name: RawName)

  /** S_ISDIR(): the four type bits of the mode are 0100. */
  predicate IsDir(mode: u16) { mode / 0x1000 % 16 == 4 }

  function PutSuper(sb: Super): (r: Image)
    ensures |r| == SUPER_SIZE
  {
    SuperHead(sb) + SuperTail(sb)
  }

  function GetSuper(s: Image): Super
    requires |s| == SUPER_SIZE
  {
    Super(Get16(s, 0), Get16(s, 2), Get16(s, 4), Get16(s, 6), Get16(s, 8), Get16(s, 10), Get32(s, 12), Get16(s, 16))
  }

  // A field laid out between other bytes is read back.
  lemma Field16(s: Image, pre: Image, v: u16, post: Image)
    requires s == pre + Put16(v) + post
    ensures Get16(s, |pre|) == v
  {
    assert s[|pre|] == Put16(v)[0] && s[|pre| + 1] == Put16(v)[1];
  }

  lemma Field32(s: Image, pre: Image, v: u32, post: Image)
    requires s == pre + Put32(v) + post
    ensures Get32(s, |pre|) == v
  {
    var f := Put32(v);
    assert s[|pre|] == f[0] && s[|pre| + 1] == f[1] && s[|pre| + 2] == f[2] && s[|pre| + 3] == f[3];
  }

  function SuperHead(sb: Super): (r: Image)
    ensures |r| == 8
  {
    Put16(sb.ninodes) + Put16(sb.nblocks) + Put16(sb.imapBlocks) + Put16(sb.bmapBlocks)
  }

  function SuperTail(sb: Super): (r: Image)
    ensures |r| == 10
  {
    Put16(sb.firstData) + Put16(sb.unused) + Put32(sb.maxSize) + Put16(sb.magic)
  }

  lemma HeadFields(sb: Super, post: Image)
    ensures var s := SuperHead(sb) + post;
      && Get16(s, 0) == sb.ninodes && Get16(s, 2) == sb.nblocks
      && Get16(s, 4) == sb.imapBlocks && Get16(s, 6) == sb.bmapBlocks
  {
    var s := SuperHead(sb) + post;
    var a, b, c, d := Put16(sb.ninodes), Put16(sb.nblocks), Put16(sb.imapBlocks), Put16(sb.bmapBlocks);
    Field16(s, [], sb.ninodes, b + c + d + post);
    Field16(s, a, sb.nblocks, c + d + post);
    Field16(s, a + b, sb.imapBlocks, d + post);
    Field16(s, a + b + c, sb.bmapBlocks, post);
  }

  lemma TailFields(sb: Super, pre: Image)
    requires |pre| == 8
    ensures var s := pre + SuperTail(sb);
      && Get16(s, 8) == sb.firstData && Get16(s, 10) == sb.unused
      && Get32(s, 12) == sb.maxSize && Get16(s, 16) == sb.magic
  {
    var s := pre + SuperTail(sb);
    var a, b, c, d := Put16(sb.firstData), Put16(sb.unused), Put32(sb.maxSize), Put16(sb.magic);
    Field16(s, pre, sb.firstData, b + c + d);
    Field16(s, pre + a, sb.unused, c + d);
    Field32(s, pre + a + b, sb.maxSize, d);
    Field16(s, pre + a + b + c, sb.magic, []);
  }

  lemma SuperRoundTrip(sb: Super)
    ensures GetSuper(PutSuper(sb)) == sb
  {
    HeadFields(sb, SuperTail(sb));
    TailFields(sb, SuperHead(sb));
  }

  /** An array of 16-bit words laid out in memory. */
  function PutWords(ws: seq<u16>): (r: Image)
    ensures |r| == 2 * |ws|
  {
    if ws == [] then [] else Put16(ws[0]) + PutWords(ws[1..])
  }

  function GetWords(s: Image): (ws: seq<u16>)
    ensures |ws| == |s| / 2
  {
    if |s| < 2 then [] else [Get16(s, 0)] + GetWords(s[2..])
  }

  lemma {:induction false} WordsRoundTrip(ws: seq<u16>)
    ensures GetWords(PutWords(ws)) == ws
  {
    if ws != [] {
      var r := PutWords(ws);
      assert r[..2] == Put16(ws[0]) && r[2..] == PutWords(ws[1..]);
      WordsRoundTrip(ws[1..]);
    }
  }

  function PutInode(ip: DInode): (r: Image)
    ensures |r| == INODE_SIZE
  {
    Put16(ip.mode) + Put16(ip.uid) + Put32(ip.size) + Put32(ip.time) + [ip.gid] + [ip.nlinks] + PutWords(ip.zones)
  }

  function GetInode(s: Image): DInode
    requires |s| == INODE_SIZE
  {
    DInode(Get16(s, 0), Get16(s, 2), Get32(s, 4), Get32(s, 8), s[12], s[13], GetWords(s[14..32]))
  }

  lemma InodeRoundTrip(ip: DInode)
    ensures GetInode(PutInode(ip)) == ip
  {
    var r := PutInode(ip);
    assert r[0..2] == Put16(ip.mode) && r[2..4] == Put16(ip.uid);
    assert r[4..8] == Put32(ip.size) && r[8..12] == Put32(ip.time);
    assert r[14..32] == PutWords(ip.zones);
    WordsRoundTrip(ip.zones);
  }

  function PutDirent(d: Dirent): (r: Image)
    ensures |r| == DIRENT_SIZE
  {
    Put16(d.ino) + d.name
  }

  function GetDirent(s: Image): Dirent
    requires |s| == DIRENT_SIZE
  {
    Dirent(Get16(s, 0), s[2..16])
  }

  lemma DirentRoundTrip(d: Dirent)
    ensures GetDirent(PutDirent(d)) == d
  {
    var r := PutDirent(d);
    assert r[0..2] == Put16(d.ino) && r[2..16] == d.name;
  }

  // ----- C strings

  /** The string held in a fixed-size field: the characters before the first NUL. */
  function StringIn(field: Image): (s: CString)
    ensures |s| <= |field| && s == field[..|s|] && (|s| < |field| ==> field[|s|] == 0)
  {
    if field == [] || field[0] == 0 then [] else [field[0]] + StringIn(field[1..])
  }

  /** ustrncpy(): copies a name into the 14-byte field and pads it with NULs. */
  function Pad(name: CString): (field: RawName)
    requires |name| <= NAME_MAX
    ensures StringIn(field) == name
  {
    var field := name + seq(NAME_MAX - |name|, _ => 0);
    PadString(name, NAME_MAX - |name|);
    field
  }

  lemma {:induction false} PadString(name: CString, n: nat)
    ensures StringIn(name + seq(n, _ => 0)) == name
  {
    var field := name + seq(n, _ => 0);
    if name != [] {
      assert field[0] == name[0] && name[0] in name;
      assert field[1..] == name[1..] + seq(n, _ => 0);
      PadString(name[1..], n);
      assert name == [name[0]] + name[1..];
    }
  }

  /** ustrncmp(field, name, n) == 0: compares until a difference, a common NUL, or n characters. */
  predicate SamePrefix(field: Image, name: CString, n: nat)
    requires n <= |field|
    decreases n
  {
    n == 0 ||
    (var c := if name == [] then 0 else name[0];
     field[0] == c && (c == 0 || SamePrefix(field[1..], name[1..], n - 1)))
  }

  /** The bounded comparison agrees with equality of strings for every name that fits. */
  lemma {:induction false} SamePrefixIff(field: Image, name: CString)
    requires |name| <= |field|
    ensures SamePrefix(field, name, |field|) <==> StringIn(field) == name
  {
    if field == [] {
    } else if name == [] {
    } else {
      assert name[0] in name;
      if field[0] == name[0] {
        SamePrefixIff(field[1..], name[1..]);
        assert name == [name[0]] + name[1..];
        assert StringIn(field)[1..] == StringIn(field[1..]);
      }
    }
  }
}
