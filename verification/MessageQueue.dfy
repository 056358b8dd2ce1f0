/**
  Message queues of the System V server: ring buffers (src/sys/pm/sysv/msg/buffer.c) and the table of
  queues over them (src/sys/pm/sysv/msg/msg.c). Each slot of the table is a bounded FIFO.
 */
module MessageQueue {
  import opened Disk

  const ENOENT := -2
  const EAGAIN := -11
  const ENOMEM := -12
  const EEXIST := -17
  const ENOSPC := -28
  const ENOMSG := -42
  const ENOTSUP := -95

  /** NANVIX_MSG_MAX, NANVIX_MSG_LENGTH_MAX and NANVIX_MSG_SIZE_MAX. */
  const QUEUES := 16
  const LENGTH := 16
  const MSG_SIZE := 256

  type Msg = s: Image | |s| == 256 witness seq(256, _ => 0)

  // ----- the ring buffer

  type RingData = s: Image | |s| == 4096 witness seq(4096, _ => 0)

  /** struct msgbuf. */
  datatype Ring = Ring(len: nat, size: nat, head: nat, tail: nat, data: RingData)

  /** `(pos + size) % MSGBUF_SIZE`. */
  function Advance(pos: nat, size: nat): nat { (pos + size) % 4096 }

  datatype Slot = Slot(ring: Ring, ret: int, at: nat)

  /** msgbuf_put(): the position of the slot for the new message. */
  function PutSlot(b: Ring): Slot
  {
    if b.len == LENGTH then Slot(b, ENOSPC, 0)
    else Slot(b.(len := b.len + 1, tail := Advance(b.tail, b.size)), 0, b.tail)
  }

  /** msgbuf_get(): the position of the oldest message. */
  function GetSlot(b: Ring): Slot
  {
    if b.len == 0 then Slot(b, ENOMSG, 0)
    else Slot(b.(len := b.len - 1, head := Advance(b.head, b.size)), 0, b.head)
  }

  /** The position of the `k`-th pending message. */
  function Position(head: nat, k: nat): nat { if head + 256 * k < 4096 then head + 256 * k else head + 256 * k - 4096 }

  /** `tail == head + len * size` modulo the buffer size, and never more than 16 messages. */
  predicate RingOk(b: Ring)
  {
    && b.size == 256 && b.len <= 16
    && b.head < 4096 && b.head % 256 == 0
    && b.tail == (b.head + 256 * b.len) % 4096
  }

  function MsgAt(b: Ring, k: nat): Msg
    requires RingOk(b) && k < 16
  {
    b.data[Position(b.head, k)..Position(b.head, k) + 256]
  }

  /** The pending messages, oldest first. */
  function Pending(b: Ring): (s: seq<Msg>)
    requires RingOk(b)
    ensures |s| == b.len && forall k: nat | k < b.len :: s[k] == MsgAt(b, k)
  {
    seq(b.len, k requires 0 <= k < b.len => MsgAt(b, k))
  }

  lemma PositionMod(head: nat, k: nat)
    requires head < 4096 && head % 256 == 0 && k <= 16
    ensures Position(head, k) == (head + 256 * k) % 4096 || (k == 16 && Position(head, k) == head)
    ensures Position(head, k) % 256 == 0 && Position(head, k) + 256 <= 4096
  {}

  lemma PositionsApart(head: nat, j: nat, k: nat)
    requires head < 4096 && j < k < 16
    ensures Position(head, j) + 256 <= Position(head, k) || Position(head, k) + 256 <= Position(head, j)
  {}

  /** The ring after a message was copied into its slot. */
  function Filled(b: Ring, m: Msg): Ring
    requires RingOk(b) && b.len < 16
  {
    PositionMod(b.head, b.len);
    PutSlot(b).ring.(data := Splice(b.data, b.tail, m))
  }

  lemma FilledOk(b: Ring, m: Msg)
    requires RingOk(b) && b.len < 16
    ensures RingOk(Filled(b, m)) && b.tail == Position(b.head, b.len)
  {
    PositionMod(b.head, b.len);
  }

  lemma FilledAt(b: Ring, m: Msg, b': Ring, k: nat)
    requires RingOk(b) && k <= b.len < 16 && b' == Filled(b, m) && RingOk(b') && b.tail == Position(b.head, b.len)
    ensures MsgAt(b', k) == if k == b.len then m else MsgAt(b, k)
  {
    if k < b.len { PositionsApart(b.head, k, b.len); }
    PositionMod(b.head, k);
    SpliceSlice(b.data, b.tail, m, Position(b.head, k), Position(b.head, k) + 256);
  }

  /** Storing appends to the queue. */
  lemma PutAppends(b: Ring, m: Msg)
    requires RingOk(b) && b.len < 16
    ensures RingOk(Filled(b, m)) && Pending(Filled(b, m)) == Pending(b) + [m]
  {
    FilledOk(b, m);
    forall k: nat | k <= b.len ensures MsgAt(Filled(b, m), k) == if k == b.len then m else MsgAt(b, k) {
      FilledAt(b, m, Filled(b, m), k);
    }
  }

  /** Taking removes the oldest message. */
  lemma GetRemoves(b: Ring)
    requires RingOk(b) && b.len > 0
    ensures var s := GetSlot(b);
      && RingOk(s.ring) && s.at + 256 <= 4096
      && b.data[s.at..s.at + 256] == Pending(b)[0] && Pending(s.ring) == Pending(b)[1..]
  {
    var b' := GetSlot(b).ring;
    PositionMod(b.head, 1);
    forall k: nat | k < b'.len ensures MsgAt(b', k) == MsgAt(b, k + 1) {
      assert Position(b'.head, k) == Position(b.head, k + 1);
    }
  }

  // ----- the pool of ring buffers

  /** `buffers[]`: a buffer whose message size is 0 is free. */
  type Buffers = s: seq<Ring> | |s| == 16 witness seq(16, _ => Ring(0, 0, 0, 0, seq(4096, _ => 0)))

  /** The first free buffer from `i` on, or 16. */
  function FindBuffer(bufs: Buffers, i: nat): (r: nat)
    requires i <= 16
    ensures i <= r <= 16 && (r < 16 ==> bufs[r].size == 0)
    ensures forall j: nat | i <= j < r :: bufs[j].size != 0
    decreases 16 - i, bufs
  {
    if i == 16 || bufs[i].size == 0 then i else FindBuffer(bufs, i + 1)
  }

  /** A buffer as msgbuf_alloc() prepares it: the length is not touched. */
  function Prepared(b: Ring): Ring { Ring(b.len, MSG_SIZE, 0, 0, seq(4096, _ => 0)) }

  // ----- the table of queues

  /** struct msg, with the index of its buffer; -1 is the null pointer. */
  datatype Queue = Queue(used: bool, key: int, refs: int, buf: int)

  type Queues = s: seq<Queue> | |s| == 16 witness seq(16, _ => Queue(false, 0, 0, -1))

  /** The queues, the buffers, and the null message that takes the data of refused sends. */
  datatype Table = Table(qs: Queues, bufs: Buffers, spare: Msg)

  /** A return code, and the message for a successful receive. */
  datatype Outcome = Outcome(t: Table, ret: int, msgs: seq<Msg>)

  /** msgbuf_init(). */
  function Emptied(bufs: Buffers): Buffers
  {
    seq(16, i requires 0 <= i < 16 => bufs[i].(size := 0, len := 0))
  }

  /** The loop of do_msg_init(), from queue `i` on. */
  function InitFrom(t: Table, i: nat): Table
    requires i <= 16
    decreases 16 - i, t
  {
    if i == 16 then t else InitFrom(InitStep(t, i), i + 1)
  }

  /** One round: queue `i` gets the first free buffer. */
  function InitStep(t: Table, i: nat): Table
    requires i < 16
  {
    var k := FindBuffer(t.bufs, 0);
    var q := t.qs[i].(used := false, refs := 0, buf := if k < 16 then k else -1);
    Table(t.qs[i := q], if k < 16 then t.bufs[k := Prepared(t.bufs[k])] else t.bufs, t.spare)
  }

  /** do_msg_init(). */
  function Init(t: Table): Table { InitFrom(t.(bufs := Emptied(t.bufs)), 0) }

  /** The first used queue from `i` on with the key, or 16. */
  function FindKey(qs: Queues, key: int, i: nat): (r: nat)
    requires i <= 16
    ensures i <= r <= 16 && (r < 16 ==> qs[r].used && qs[r].key == key)
    ensures forall j: nat | i <= j < r :: !(qs[j].used && qs[j].key == key)
    decreases 16 - i, key
  {
    if i == 16 || (qs[i].used && qs[i].key == key) then i else FindKey(qs, key, i + 1)
  }

  /** resource_alloc(): the first unused entry, or 16. */
  function FindUnused(qs: Queues, i: nat): (r: nat)
    requires i <= 16
    ensures i <= r <= 16 && (r < 16 ==> !qs[r].used)
    ensures forall j: nat | i <= j < r :: qs[j].used
    decreases 16 - i, qs
  {
    if i == 16 || !qs[i].used then i else FindUnused(qs, i + 1)
  }

  function Code(t: Table, ret: int): Outcome { Outcome(t, ret, []) }

  /** do_msg_get(): key 0 is IPC_PRIVATE. */
  function GetQueue(t: Table, key: int, creat: bool, excl: bool): Outcome
  {
    if key == 0 then Code(t, ENOTSUP)
    else if !creat && excl then Code(t, EINVAL)
    else
      var i := FindKey(t.qs, key, 0);
      if i < 16 then
        if creat && excl then Code(t, EEXIST)
        else Code(t.(qs := t.qs[i := t.qs[i].(refs := t.qs[i].refs + 1)]), i)
      else if !creat then Code(t, ENOENT)
      else
        var k := FindUnused(t.qs, 0);
        if k == 16 then Code(t, ENOMEM)
        else Code(t.(qs := t.qs[k := t.qs[k].(used := true, key := key, refs := t.qs[k].refs + 1)]), k)
  }

  predicate Open(qs: Queues, id: int) { 0 <= id < 16 && qs[id].used }

  /** do_msg_close(): the ring buffer keeps its messages. */
  function CloseQueue(t: Table, id: int): Outcome
  {
    if !Open(t.qs, id) then Code(t, EINVAL)
    else
      var n := t.qs[id].refs - 1;
      Code(t.(qs := t.qs[id := t.qs[id].(refs := n, used := n != 0)]), 0)
  }

  predicate HasBuffer(q: Queue) { 0 <= q.buf < 16 }

  /** The buffer of queue `id`. */
  function BufferOf(t: Table, id: nat): Ring
    requires id < 16 && HasBuffer(t.qs[id])
  {
    t.bufs[t.qs[id].buf]
  }

  /** Every queue has a buffer in order. */
  predicate Wired(t: Table)
  {
    forall i: nat | i < 16 :: HasBuffer(t.qs[i]) && RingOk(BufferOf(t, i))
  }

  /** The data of a refused send goes to the null message; what exceeds it lands behind it. */
  function Discarded(t: Table, data: Image): Table
  {
    t.(spare := Splice(t.spare, 0, if |data| <= 256 then data else data[..256]))
  }

  /** do_msg_send(), and the copy of the data into the slot it returns. */
  function Send(t: Table, id: int, nowait: bool, data: Image): Outcome
    requires Wired(t)
  {
    if !nowait then Code(Discarded(t, data), ENOTSUP)
    else if !Open(t.qs, id) || |data| != MSG_SIZE then Code(Discarded(t, data), EINVAL)
    else if PutSlot(BufferOf(t, id)).ret < 0 then Code(Discarded(t, data), EAGAIN)
    else Code(t.(bufs := t.bufs[t.qs[id].buf := Filled(BufferOf(t, id), data)]), 0)
  }

  /** do_msg_receive(), and the copy of the message out of its slot. */
  function Receive(t: Table, id: int, nowait: bool, size: nat): Outcome
    requires Wired(t)
  {
    if !nowait then Code(t, ENOTSUP)
    else if !Open(t.qs, id) || size != MSG_SIZE then Code(t, EINVAL)
    else
      var s := GetSlot(BufferOf(t, id));
      if s.ret < 0 then Code(t, s.ret)
      else
        GetRemoves(BufferOf(t, id));
        Outcome(t.(bufs := t.bufs[t.qs[id].buf := s.ring]), 0, [BufferOf(t, id).data[s.at..s.at + 256]])
  }

  // ----- the invariant

  predicate QueueOk(q: Queue) { q.refs >= 0 && (q.used <==> q.refs > 0) }

  ghost predicate KeysUnique(qs: Queues)
  {
    forall i: nat, j: nat | i < 16 && j < 16 && qs[i].used && qs[j].used && qs[i].key == qs[j].key :: i == j
  }

  /** No buffer belongs to two queues. */
  ghost predicate BuffersUnique(qs: Queues)
  {
    forall i: nat, j: nat | i < 16 && j < 16 && qs[i].buf == qs[j].buf :: i == j
  }

  ghost predicate Inv(t: Table)
  {
    && Wired(t) && BuffersUnique(t.qs)
    && (forall i: nat | i < 16 :: QueueOk(t.qs[i])) && KeysUnique(t.qs)
  }

  // ----- initialisation

  /** The first `i` queues have been given the first `i` buffers, in order; the others are free. */
  ghost predicate Given(t: Table, i: nat)
  {
    && i <= 16
    && (forall j: nat | j < i :: t.qs[j] == t.qs[j].(used := false, refs := 0, buf := j) && Fresh(t.bufs[j]))
    && (forall j: nat | i <= j < 16 :: t.bufs[j].size == 0 && t.bufs[j].len == 0)
  }

  predicate Fresh(b: Ring) { b.len == 0 && b.size == 256 && b.head == 0 && b.tail == 0 }

  lemma {:induction false} InitGives(t: Table, i: nat)
    requires Given(t, i)
    ensures Given(InitFrom(t, i), 16)
    decreases 16 - i
  {
    if i < 16 {
      var k := FindBuffer(t.bufs, 0);
      assert k == i by { assert t.bufs[i].size == 0; assert forall j: nat | j < i :: Fresh(t.bufs[j]); }
      InitGives(InitStep(t, i), i + 1);
    }
  }

  /** do_msg_init() gives every queue a buffer of its own, whatever the memory held: all queues are
      unused and empty. */
  lemma {:induction false} InitInv(t: Table)
    ensures Inv(Init(t)) && forall i: nat | i < 16 :: !Init(t).qs[i].used && Pending(BufferOf(Init(t), i)) == []
  {
    InitGives(t.(bufs := Emptied(t.bufs)), 0);
    var u := Init(t);
    assert forall j: nat | j < 16 :: u.qs[j] == u.qs[j].(used := false, refs := 0, buf := j) && Fresh(u.bufs[j]);
    assert forall j: nat | j < 16 :: QueueOk(u.qs[j]) && HasBuffer(u.qs[j]) && RingOk(BufferOf(u, j));
  }

  // ----- what every call does

  datatype Op =
    | OpGet(key: int, creat: bool, excl: bool)
    | OpClose(id: int)
    | OpSend(id: int, nowait: bool, data: Image)
    | OpReceive(id: int, nowait: bool, size: nat)

  function Exec(t: Table, op: Op): Outcome
    requires Wired(t)
  {
    match op
    case OpGet(key, creat, excl) => GetQueue(t, key, creat, excl)
    case OpClose(id) => CloseQueue(t, id)
    case OpSend(id, nowait, data) => Send(t, id, nowait, data)
    case OpReceive(id, nowait, size) => Receive(t, id, nowait, size)
  }

  /** An entry as its users know it: open or not, key, references, messages. */
  datatype Item = Item(used: bool, key: int, refs: int, pending: seq<Msg>)

  function ItemOf(q: Queue, b: Ring): Item
    requires RingOk(b)
  {
    Item(q.used, q.key, q.refs, Pending(b))
  }

  function Abs(t: Table): (s: seq<Item>)
    requires Wired(t)
    ensures |s| == 16 && forall i: nat | i < 16 :: s[i] == ItemOf(t.qs[i], BufferOf(t, i))
  {
    seq(16, i requires 0 <= i < 16 => assert HasBuffer(t.qs[i]); ItemOf(t.qs[i], BufferOf(t, i)))
  }

  ghost predicate Live(a: seq<Item>, id: int) { 0 <= id < |a| && a[id].used }

  /** The entry that an operation touches, and what it becomes. */
  ghost function Effect(a: seq<Item>, op: Op, ret: int): seq<Item>
  {
    if ret < 0 then a
    else
      match op
      case OpGet(key, _, _) =>
        if ret < |a| then a[ret := a[ret].(used := true, key := key, refs := a[ret].refs + 1)] else a
      case OpClose(id) =>
        if 0 <= id < |a| then a[id := a[id].(refs := a[id].refs - 1, used := a[id].refs != 1)] else a
      case OpSend(id, _, data) =>
        if 0 <= id < |a| && |data| == 256 then a[id := a[id].(pending := a[id].pending + [data])] else a
      case OpReceive(id, _, _) =>
        if 0 <= id < |a| && a[id].pending != [] then a[id := a[id].(pending := a[id].pending[1..])] else a
  }

  ghost predicate HasKey(a: seq<Item>, key: int) { exists i: nat :: i < |a| && a[i].used && a[i].key == key }

  ghost predicate HasRoom(a: seq<Item>) { exists i: nat :: i < |a| && !a[i].used }

  /** The error of do_msg_get(), or 0 for success. */
  ghost function GetError(a: seq<Item>, key: int, creat: bool, excl: bool): int
  {
    if key == 0 then ENOTSUP
    else if !creat && excl then EINVAL
    else if HasKey(a, key) then if creat && excl then EEXIST else 0
    else if !creat then ENOENT
    else if !HasRoom(a) then ENOMEM
    else 0
  }

  /** What do_msg_send() returns. */
  ghost function SendCode(a: seq<Item>, id: int, nowait: bool, size: nat): int
  {
    if !nowait then ENOTSUP
    else if !Live(a, id) || size != 256 then EINVAL
    else if |a[id].pending| == 16 then EAGAIN
    else 0
  }

  /** What do_msg_receive() returns. */
  ghost function ReceiveCode(a: seq<Item>, id: int, nowait: bool, size: nat): int
  {
    if !nowait then ENOTSUP
    else if !Live(a, id) || size != 256 then EINVAL
    else if a[id].pending == [] then ENOMSG
    else 0
  }

  /** Which results are right. */
  ghost predicate Correct(a: seq<Item>, op: Op, ret: int, msgs: seq<Msg>)
  {
    match op
    case OpGet(key, creat, excl) =>
      var e := GetError(a, key, creat, excl);
      if e < 0 then ret == e
      else 0 <= ret < |a| && if HasKey(a, key) then a[ret].used && a[ret].key == key else !a[ret].used
    case OpClose(id) => ret == if Live(a, id) then 0 else EINVAL
    case OpSend(id, nowait, data) => ret == SendCode(a, id, nowait, |data|)
    case OpReceive(id, nowait, size) =>
      && ret == ReceiveCode(a, id, nowait, size)
      && msgs == if ret == 0 && Live(a, id) && a[id].pending != [] then [a[id].pending[0]] else []
  }

  /** A call meets its abstract counterpart. */
  ghost predicate Refines(t: Table, op: Op, o: Outcome)
    requires Wired(t)
  {
    Inv(o.t) && Correct(Abs(t), op, o.ret, o.msgs) && Abs(o.t) == Effect(Abs(t), op, o.ret)
  }

  /** Queue `i` changes, but not its buffer. */
  lemma QueueUpdate(t: Table, i: nat, q: Queue)
    requires Inv(t) && i < 16 && QueueOk(q) && q.buf == t.qs[i].buf
    requires q.used ==> forall j: nat | j < 16 && j != i && t.qs[j].used :: t.qs[j].key != q.key
    ensures var u := t.(qs := t.qs[i := q]);
      Inv(u) && Abs(u) == Abs(t)[i := Abs(t)[i].(used := q.used, key := q.key, refs := q.refs)]
  {
    var u := t.(qs := t.qs[i := q]);
    forall j: nat | j < 16 ensures HasBuffer(u.qs[j]) && RingOk(BufferOf(u, j)) && QueueOk(u.qs[j]) {
      assert HasBuffer(t.qs[j]) && QueueOk(t.qs[j]);
    }
  }

  /** The buffer of queue `i` changes, and with it the messages of that queue alone. */
  lemma BufferUpdate(t: Table, i: nat, b: Ring)
    requires Inv(t) && i < 16 && RingOk(b) && HasBuffer(t.qs[i])
    ensures var u := t.(bufs := t.bufs[t.qs[i].buf := b]);
      Inv(u) && Abs(u) == Abs(t)[i := Abs(t)[i].(pending := Pending(b))]
  {
    var u := t.(bufs := t.bufs[t.qs[i].buf := b]);
    forall j: nat | j < 16 ensures HasBuffer(u.qs[j]) && RingOk(BufferOf(u, j))
      ensures BufferOf(u, j) == if j == i then b else BufferOf(t, j)
    {
      assert HasBuffer(t.qs[j]) && RingOk(BufferOf(t, j));
    }
  }

  lemma DiscardedSame(t: Table, data: Image)
    requires Inv(t)
    ensures Inv(Discarded(t, data)) && Abs(Discarded(t, data)) == Abs(t)
  {
    var u := Discarded(t, data);
    assert forall j: nat | j < 16 :: HasBuffer(t.qs[j]) && RingOk(BufferOf(t, j)) && BufferOf(u, j) == BufferOf(t, j);
  }

  /** The two searches find a key, and a free entry, iff there is one. */
  lemma {:induction false} SearchesRight(t: Table, key: int)
    requires Wired(t)
    ensures HasKey(Abs(t), key) <==> FindKey(t.qs, key, 0) < 16
    ensures HasRoom(Abs(t)) <==> FindUnused(t.qs, 0) < 16
  {
    var a, i, k := Abs(t), FindKey(t.qs, key, 0), FindUnused(t.qs, 0);
    assert i < 16 ==> a[i].used && a[i].key == key;
    assert k < 16 ==> !a[k].used;
  }

  lemma {:induction false} GetStep(t: Table, key: int, creat: bool, excl: bool)
    requires Inv(t)
    ensures Refines(t, OpGet(key, creat, excl), GetQueue(t, key, creat, excl))
  {
    var i, k := FindKey(t.qs, key, 0), FindUnused(t.qs, 0);
    SearchesRight(t, key);
    if GetError(Abs(t), key, creat, excl) < 0 {
      GetRefused(t, key, creat, excl);
    } else if i < 16 {
      GetKnown(t, key, creat, excl, i, GetQueue(t, key, creat, excl));
    } else {
      GetNew(t, key, excl, k, GetQueue(t, key, creat, excl));
    }
  }

  lemma GetRefused(t: Table, key: int, creat: bool, excl: bool)
    requires Inv(t) && GetError(Abs(t), key, creat, excl) < 0
    ensures Refines(t, OpGet(key, creat, excl), Code(t, GetError(Abs(t), key, creat, excl)))
  {}

  lemma GetKnown(t: Table, key: int, creat: bool, excl: bool, i: nat, o: Outcome)
    requires Inv(t) && GetError(Abs(t), key, creat, excl) == 0
    requires i < 16 && t.qs[i].used && t.qs[i].key == key && HasKey(Abs(t), key)
    requires o == Code(t.(qs := t.qs[i := t.qs[i].(refs := t.qs[i].refs + 1)]), i)
    ensures Refines(t, OpGet(key, creat, excl), o)
  {
    assert QueueOk(t.qs[i]);
    QueueUpdate(t, i, t.qs[i].(refs := t.qs[i].refs + 1));
  }

  lemma GetNew(t: Table, key: int, excl: bool, k: nat, o: Outcome)
    requires Inv(t) && GetError(Abs(t), key, true, excl) == 0
    requires k < 16 && !t.qs[k].used && !HasKey(Abs(t), key)
    requires o == Code(t.(qs := t.qs[k := t.qs[k].(used := true, key := key, refs := t.qs[k].refs + 1)]), k)
    ensures Refines(t, OpGet(key, true, excl), o)
  {
    assert QueueOk(t.qs[k]);
    forall j: nat | j < 16 && j != k && t.qs[j].used ensures t.qs[j].key != key { assert Abs(t)[j].used; }
    QueueUpdate(t, k, t.qs[k].(used := true, key := key, refs := t.qs[k].refs + 1));
  }

  lemma CloseStep(t: Table, id: int)
    requires Inv(t)
    ensures Refines(t, OpClose(id), CloseQueue(t, id))
  {
    if Open(t.qs, id) {
      assert QueueOk(t.qs[id]);
      var n := t.qs[id].refs - 1;
      QueueUpdate(t, id, t.qs[id].(refs := n, used := n != 0));
    }
  }

  lemma SendStep(t: Table, id: int, nowait: bool, data: Image)
    requires Inv(t)
    ensures Refines(t, OpSend(id, nowait, data), Send(t, id, nowait, data))
  {
    DiscardedSame(t, data);
    if Open(t.qs, id) {
      assert HasBuffer(t.qs[id]) && RingOk(BufferOf(t, id));
      if BufferOf(t, id).len < 16 && |data| == 256 {
        PutAppends(BufferOf(t, id), data);
        BufferUpdate(t, id, Filled(BufferOf(t, id), data));
      }
    }
  }

  lemma ReceiveStep(t: Table, id: int, nowait: bool, size: nat)
    requires Inv(t)
    ensures Refines(t, OpReceive(id, nowait, size), Receive(t, id, nowait, size))
  {
    if Open(t.qs, id) {
      assert HasBuffer(t.qs[id]) && RingOk(BufferOf(t, id));
      if BufferOf(t, id).len > 0 {
        GetRemoves(BufferOf(t, id));
        BufferUpdate(t, id, GetSlot(BufferOf(t, id)).ring);
      }
    }
  }

  /** Every call returns exactly the code of the abstract queues and has its effect on them; a failing
      one changes nothing but the null message. */
  lemma ExecStep(t: Table, op: Op)
    requires Inv(t)
    ensures Refines(t, op, Exec(t, op))
  {
    match op
    case OpGet(key, creat, excl) => GetStep(t, key, creat, excl);
    case OpClose(id) => CloseStep(t, id);
    case OpSend(id, nowait, data) => SendStep(t, id, nowait, data);
    case OpReceive(id, nowait, size) => ReceiveStep(t, id, nowait, size);
  }

  // ----- first in, first out over whole runs

  datatype Trace = Trace(t: Table, rets: seq<int>, msgs: seq<seq<Msg>>)

  ghost function Run(t: Table, ops: seq<Op>): (r: Trace)
    requires Inv(t)
    ensures |r.rets| == |r.msgs| == |ops| && Inv(r.t)
    decreases |ops|
  {
    if ops == [] then Trace(t, [], [])
    else
      ExecStep(t, ops[0]);
      var o := Exec(t, ops[0]);
      var r := Run(o.t, ops[1..]);
      Trace(r.t, [o.ret] + r.rets, [o.msgs] + r.msgs)
  }

  ghost function Replay(a: seq<Item>, ops: seq<Op>, rets: seq<int>): seq<Item>
    requires |rets| == |ops|
    decreases |ops|
  {
    if ops == [] then a else Replay(Effect(a, ops[0], rets[0]), ops[1..], rets[1..])
  }

  ghost predicate AllCorrect(a: seq<Item>, ops: seq<Op>, rets: seq<int>, msgs: seq<seq<Msg>>)
    requires |rets| == |msgs| == |ops|
    decreases |ops|
  {
    ops != [] ==>
      && Correct(a, ops[0], rets[0], msgs[0])
      && AllCorrect(Effect(a, ops[0], rets[0]), ops[1..], rets[1..], msgs[1..])
  }

  /** Over any run the table and its buffers are sixteen queues of messages. */
  lemma {:induction false} RunRefinesQueues(t: Table, ops: seq<Op>)
    requires Inv(t)
    ensures var r := Run(t, ops);
      AllCorrect(Abs(t), ops, r.rets, r.msgs) && Abs(r.t) == Replay(Abs(t), ops, r.rets)
    decreases |ops|
  {
    if ops != [] {
      ExecStep(t, ops[0]);
      var o := Exec(t, ops[0]);
      RunRefinesQueues(o.t, ops[1..]);
      var r, u := Run(t, ops), Run(o.t, ops[1..]);
      assert r.rets[1..] == u.rets && r.msgs[1..] == u.msgs;
    }
  }

  /** The message, if any, that a call put into, or took out of, entry `id`. */
  function SentBy(op: Op, ret: int, id: nat): seq<Msg>
  {
    if op.OpSend? && op.id == id && ret == 0 && |op.data| == 256 then [op.data] else []
  }

  function TakenBy(op: Op, msgs: seq<Msg>, id: nat): seq<Msg>
  {
    if op.OpReceive? && op.id == id then msgs else []
  }

  /** The messages successfully sent to entry `id` in a run. */
  function SentTo(ops: seq<Op>, rets: seq<int>, id: nat): seq<Msg>
    requires |rets| == |ops|
    decreases |ops|
  {
    if ops == [] then [] else SentBy(ops[0], rets[0], id) + SentTo(ops[1..], rets[1..], id)
  }

  /** The messages received from entry `id` in a run. */
  function ReceivedFrom(ops: seq<Op>, msgs: seq<seq<Msg>>, id: nat): seq<Msg>
    requires |msgs| == |ops|
    decreases |ops|
  {
    if ops == [] then [] else TakenBy(ops[0], msgs[0], id) + ReceivedFrom(ops[1..], msgs[1..], id)
  }

  lemma OneEffect(a: seq<Item>, op: Op, ret: int, msgs: seq<Msg>, id: nat)
    requires Correct(a, op, ret, msgs) && id < |a|
    ensures |Effect(a, op, ret)| == |a|
    ensures a[id].pending + SentBy(op, ret, id) == TakenBy(op, msgs, id) + Effect(a, op, ret)[id].pending
  {
    var p := a[id].pending;
    assert p + [] == [] + p;
    assert p != [] ==> p == [p[0]] + p[1..];
  }

  lemma Chain(p: seq<Msg>, s1: seq<Msg>, r1: seq<Msg>, q: seq<Msg>, s2: seq<Msg>, r2: seq<Msg>, f: seq<Msg>)
    requires p + s1 == r1 + q && q + s2 == r2 + f
    ensures p + (s1 + s2) == (r1 + r2) + f
  {
    calc {
      p + (s1 + s2);
      (p + s1) + s2;
      (r1 + q) + s2;
      r1 + (q + s2);
      r1 + (r2 + f);
      (r1 + r2) + f;
    }
  }

  /** Each entry is a bounded queue: in every run, what was pending and what was sent is, in order,
      what was received and what is still pending; and no more than 16 messages ever are. */
  lemma {:induction false} Fifo(t: Table, ops: seq<Op>, id: nat)
    requires Inv(t) && id < 16
    ensures var r := Run(t, ops);
      && |Abs(r.t)[id].pending| <= 16
      && Abs(t)[id].pending + SentTo(ops, r.rets, id) == ReceivedFrom(ops, r.msgs, id) + Abs(r.t)[id].pending
    decreases |ops|
  {
    var r := Run(t, ops);
    assert HasBuffer(r.t.qs[id]) && RingOk(BufferOf(r.t, id));
    if ops != [] {
      ExecStep(t, ops[0]);
      var o := Exec(t, ops[0]);
      OneEffect(Abs(t), ops[0], o.ret, o.msgs, id);
      Fifo(o.t, ops[1..], id);
      var u := Run(o.t, ops[1..]);
      assert r.rets[1..] == u.rets && r.msgs[1..] == u.msgs;
      Chain(Abs(t)[id].pending, SentBy(ops[0], o.ret, id), TakenBy(ops[0], o.msgs, id), Abs(o.t)[id].pending,
            SentTo(ops[1..], u.rets, id), ReceivedFrom(ops[1..], u.msgs, id), Abs(r.t)[id].pending);
    }
  }

  /** Closing a queue does not empty it: the next queue created in the entry starts with the messages
      that were pending. */
  lemma {:induction false} PendingInherited(t: Table, id: nat, key: int)
    requires Inv(t) && Open(t.qs, id) && t.qs[id].refs == 1 && key != 0
    requires forall i: nat | i < 16 && t.qs[i].used :: t.qs[i].key != key
    requires forall i: nat | i < id :: t.qs[i].used
    ensures var o := GetQueue(CloseQueue(t, id).t, key, true, true);
      o.ret == id && Wired(o.t) && Abs(o.t)[id] == Item(true, key, 1, Abs(t)[id].pending)
  {
    var c := CloseQueue(t, id).t;
    CloseStep(t, id);
    GetStep(c, key, true, true);
    assert FindKey(c.qs, key, 0) == 16;
    assert !c.qs[id].used && forall i: nat | i < id :: c.qs[i].used;
  }

  // ----- the server as it runs

  class Server {
    const queues: array<Queue>
    const buffers: array<Ring>
    var spare: Msg

    ghost predicate Valid()
      reads this
    {
      queues.Length == 16 && buffers.Length == 16 && queues as object != buffers
    }

    ghost function View(): Table
      requires Valid()
      reads this, queues, buffers
    {
      Table(queues[..], buffers[..], spare)
    }

    /** The static memory of the server, before do_msg_init(). */
    constructor (qs: Queues, bufs: Buffers, m: Msg)
      ensures Valid() && View() == Table(qs, bufs, m)
    {
      queues := new Queue[16](i requires 0 <= i < 16 => qs[i]);
      buffers := new Ring[16](i requires 0 <= i < 16 => bufs[i]);
      spare := m;
      new;
      assert queues[..] == qs && buffers[..] == bufs;
    }

    /** msgbuf_init(). */
    method BufferInit()
      requires Valid()
      modifies buffers
      ensures Valid() && View() == old(View()).(bufs := Emptied(old(buffers[..])))
    {
      for i := 0 to 16
        invariant Valid()
        invariant forall j: nat | j < i :: buffers[j] == old(buffers[..])[j].(size := 0, len := 0)
        invariant forall j: nat | i <= j < 16 :: buffers[j] == old(buffers[..])[j]
      {
        buffers[i] := buffers[i].(size := 0);
        buffers[i] := buffers[i].(len := 0);
      }
      assert buffers[..] == Emptied(old(buffers[..]));
    }

    /** msgbuf_alloc(): -1 is the null pointer. */
    method BufferAlloc() returns (k: int)
      requires Valid()
      modifies buffers
      ensures Valid()
      ensures var i := FindBuffer(old(buffers[..]), 0);
        if i < 16 then k == i && buffers[..] == old(buffers[..])[i := Prepared(old(buffers[..])[i])]
        else k == -1 && buffers[..] == old(buffers[..])
    {
      var i := 0;
      while i < 16
        invariant i <= 16 && buffers[..] == old(buffers[..])
        invariant FindBuffer(buffers[..], 0) == FindBuffer(buffers[..], i)
      {
        if buffers[i].size == 0 {
          buffers[i] := buffers[i].(head := 0, tail := 0);
          buffers[i] := buffers[i].(size := MSG_SIZE);
          buffers[i] := buffers[i].(data := seq(4096, _ => 0));
          return i;
        }
        i := i + 1;
      }
      return -1;
    }

    /** do_msg_init(). */
    method DoInit()
      requires Valid()
      modifies queues, buffers
      ensures Valid() && View() == Init(old(View())) && Inv(View())
    {
      InitInv(View());
      BufferInit();
      var i := 0;
      while i < 16
        invariant i <= 16 && Valid() && spare == old(spare)
        invariant InitFrom(View(), i) == Init(old(View()))
      {
        ghost var t := View();
        queues[i] := queues[i].(refs := 0);
        var k := BufferAlloc();
        queues[i] := queues[i].(buf := k);
        queues[i] := queues[i].(used := false);
        assert queues[..] == InitStep(t, i).qs;
        i := i + 1;
      }
    }

    /** do_msg_get(). */
    method DoGet(key: int, creat: bool, excl: bool) returns (ret: int)
      requires Valid()
      modifies queues
      ensures Valid() && Outcome(View(), ret, []) == GetQueue(old(View()), key, creat, excl)
    {
      if key == 0 { return ENOTSUP; }
      if !creat && excl { return EINVAL; }
      var i := 0;
      while i < 16
        invariant i <= 16 && queues[..] == old(queues[..])
        invariant FindKey(queues[..], key, 0) == FindKey(queues[..], key, i)
      {
        if queues[i].used && queues[i].key == key {
          if creat && excl { return EEXIST; }
          queues[i] := queues[i].(refs := queues[i].refs + 1);
          return i;
        }
        i := i + 1;
      }
      if !creat { return ENOENT; }
      var k := AllocEntry();
      if k == 16 { return ENOMEM; }
      queues[k] := queues[k].(used := true);
      queues[k] := queues[k].(key := key);
      queues[k] := queues[k].(refs := queues[k].refs + 1);
      return k;
    }

    /** The search of resource_alloc(). */
    method AllocEntry() returns (k: nat)
      requires Valid()
      ensures k == FindUnused(queues[..], 0)
    {
      k := 0;
      while k < 16
        invariant k <= 16 && FindUnused(queues[..], 0) == FindUnused(queues[..], k)
      {
        if !queues[k].used { return; }
        k := k + 1;
      }
    }

    /** do_msg_close(). */
    method DoClose(id: int) returns (ret: int)
      requires Valid()
      modifies queues
      ensures Valid() && Outcome(View(), ret, []) == CloseQueue(old(View()), id)
    {
      if id < 0 || id >= QUEUES { return EINVAL; }
      if !queues[id].used { return EINVAL; }
      queues[id] := queues[id].(refs := queues[id].refs - 1);
      if queues[id].refs == 0 { queues[id] := queues[id].(used := false); }
      return 0;
    }

    /** The transfer of a refused send. */
    method Discard(data: Image)
      requires Valid()
      modifies this`spare
      ensures Valid() && View() == Discarded(old(View()), data)
    {
      spare := Splice(spare, 0, if |data| <= 256 then data else data[..256]);
    }

    /** do_msg_send(), and the copy of the data. */
    method DoSend(id: int, nowait: bool, data: Image) returns (ret: int)
      requires Valid() && Wired(View())
      modifies this`spare, buffers
      ensures Valid() && Outcome(View(), ret, []) == Send(old(View()), id, nowait, data)
    {
      ret := EINVAL;
      if !nowait {
        ret := ENOTSUP;
      } else if 0 <= id < QUEUES && queues[id].used && |data| == MSG_SIZE {
        var k := queues[id].buf;
        assert HasBuffer(View().qs[id]) && RingOk(BufferOf(View(), id));
        var s := PutSlot(buffers[k]);
        if s.ret >= 0 {
          PutAppends(buffers[k], data);
          buffers[k] := s.ring.(data := Splice(s.ring.data, s.at, data));
          return 0;
        }
        ret := EAGAIN;
      }
      Discard(data);
    }

    /** do_msg_receive(), and the copy of the message. */
    method DoReceive(id: int, nowait: bool, size: nat) returns (ret: int, msgs: seq<Msg>)
      requires Valid() && Wired(View())
      modifies buffers
      ensures Valid() && Outcome(View(), ret, msgs) == Receive(old(View()), id, nowait, size)
    {
      if !nowait { return ENOTSUP, []; }
      if id < 0 || id >= QUEUES { return EINVAL, []; }
      if !queues[id].used { return EINVAL, []; }
      if size != MSG_SIZE { return EINVAL, []; }
      var k := queues[id].buf;
      assert HasBuffer(View().qs[id]) && RingOk(BufferOf(View(), id));
      var s := GetSlot(buffers[k]);
      if s.ret < 0 { return s.ret, []; }
      GetRemoves(buffers[k]);
      var m: Msg := buffers[k].data[s.at..s.at + 256];
      buffers[k] := s.ring;
      return 0, [m];
    }
  }
}
