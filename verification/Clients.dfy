/** The two client protocols: publishing a service and looking one up. */
module Clients {
  import opened Words
  import opened Writer
  import opened Reader
  import opened Commands
  import opened Parser
  import opened Rounds
  import opened BinderIo
  import opened BinderLib
  import opened Manager

  const MESSAGE_SIZE: nat := 512
  const MESSAGE_SLOTS: nat := 4

  type MessageBuffer = s: seq<byte> | |s| == MESSAGE_SIZE witness seq(MESSAGE_SIZE, _ => 0)

  function HeaderOps(): seq<PutOp> {
    [PutU32(0), PutU32(0), PutStrX(Some(MANAGER_ID + [0]))]
  }

  /** The puts of svcmgr_publish. */
  function PublishOps(name: Option<seq<byte>>, ptr: u64): seq<PutOp> {
    HeaderOps() + [PutStrX(name), PutBinder(ptr), PutU32(0), PutU32(0)]
  }

  /** The puts of svcmgr_lookup. */
  function LookupOps(name: Option<seq<byte>>): seq<PutOp> {
    HeaderOps() + [PutStrX(name)]
  }

  /** The message built in a stack buffer with whatever contents. */
  function Request(iodata: MessageBuffer, ops: seq<PutOp>): Out
    requires ValidOps(ops)
  {
    PutAll(Fresh(iodata, MESSAGE_SLOTS), ops)
  }

  lemma IdString()
    ensures CString(Some(MANAGER_ID + [0])) && StrLen(MANAGER_ID + [0]) == |MANAGER_ID|
    ensures StoredUnitsX(Some(MANAGER_ID + [0])) == Some(Widen(MANAGER_ID) + [0])
  {
    var s := MANAGER_ID + [0];
    assert s[|MANAGER_ID|] == 0;
    assert s[..|MANAGER_ID|] == MANAGER_ID;
    assert 0 !in MANAGER_ID;
    StrLenUnique(s, |MANAGER_ID|);
  }

  lemma OpsValid(name: Option<seq<byte>>, ptr: u64)
    requires CString(name)
    ensures ValidOps(PublishOps(name, ptr)) && ValidOps(LookupOps(name))
  {
    IdString();
  }

  /** int status = bio_get_uint32(&reply). */
  function Signed(n: u32): int {
    if n < 0x8000_0000 then n else n - TWO32
  }

  function PublishStatus(reply: In): int {
    Signed(GetUint32(reply).1)
  }

  function HeaderPut(o: Out): Out {
    IdString();
    PutString16X(PutUint32(PutUint32(o, 0), 0), Some(MANAGER_ID + [0]))
  }

  /** The puts one by one are the puts of the list. */
  lemma PutsInOrder(o: Out, name: Option<seq<byte>>, ptr: u64)
    requires CString(name)
    ensures ValidOps(LookupOps(name)) && PutAll(o, LookupOps(name)) == PutString16X(HeaderPut(o), name)
    ensures ValidOps(PublishOps(name, ptr))
    ensures PutAll(o, PublishOps(name, ptr))
         == PutUint32(PutUint32(PutObj(PutString16X(HeaderPut(o), name), ptr), 0), 0)
  {
    hide PutAll, PutUint32, PutString16X, PutObj;
    IdString();
    var a, b, c, d, e := PutU32(0), PutStrX(Some(MANAGER_ID + [0])), PutStrX(name), PutBinder(ptr), PutU32(0);
    NoPuts(o);
    PutAllNext(o, [], a);
    assert [] + [a] == [a];
    PutAllNext(o, [a], a);
    assert [a] + [a] == [a, a];
    PutAllNext(o, [a, a], b);
    assert [a, a] + [b] == [a, a, b];
    PutAllNext(o, [a, a, b], c);
    assert [a, a, b] + [c] == LookupOps(name);
    PutAllNext(o, LookupOps(name), d);
    PutAllNext(o, LookupOps(name) + [d], e);
    PutAllNext(o, LookupOps(name) + [d] + [e], e);
    assert LookupOps(name) + [d] + [e] + [e] == PublishOps(name, ptr);
  }

  lemma NoPuts(o: Out)
    ensures PutAll(o, []) == o
  {
  }

  /** A message under construction: the stack buffer and the header. */
  method NewMessage() returns (msg: Bio, ghost iodata: MessageBuffer)
    ensures fresh(msg) && fresh(msg.mem) && msg.ValidOut()
    ensures msg.Written() == HeaderPut(Fresh(iodata, MESSAGE_SLOTS))
  {
    hide Bio.Written, PutUint32, PutString16X;
    var buffer := new byte[MESSAGE_SIZE];
    iodata := buffer[..];
    msg := new Bio(buffer);
    msg.Init(buffer, MESSAGE_SIZE, MESSAGE_SLOTS);
    assert buffer[..MESSAGE_SIZE] == iodata;
    IdString();
    msg.PutUint32(0);
    msg.PutUint32(0);
    msg.PutString16X(Some(MANAGER_ID + [0]));
  }

  /** Exactly one more transaction was offered, carrying the message m. */
  predicate Offered(after: seq<Offer>, before: seq<Offer>, target: u32, code: u32, m: Out) {
    after == before + [Offer(target, code, 0, m.bytes, m.offsets)]
  }

  method PublishMessage(name: Option<seq<byte>>, ptr: u64) returns (msg: Bio, ghost iodata: MessageBuffer)
    requires CString(name)
    ensures fresh(msg) && fresh(msg.mem) && msg.ValidOut() && ValidOps(PublishOps(name, ptr))
    ensures msg.Written() == Request(iodata, PublishOps(name, ptr)) && msg.Written().flags == msg.flags
  {
    hide Bio.Written, PutUint32, PutString16X, PutObj, PutAll, PublishOps, HeaderPut;
    msg, iodata := NewMessage();
    msg.PutString16X(name);
    msg.PutObj(ptr);
    msg.PutUint32(0);
    msg.PutUint32(0);
    PutsInOrder(Fresh(iodata, MESSAGE_SLOTS), name, ptr);
    WrittenFlags(msg);
  }

  /** svcmgr_publish. The result is missing while the call still waits for the driver. */
  method Publish<S>(bs: Binder<S>, target: u32, name: Option<seq<byte>>, ptr: u64)
    returns (status: Option<int>, ghost iodata: MessageBuffer)
    requires bs.ValidScript() && CString(name)
    modifies bs`world, bs`log, bs`rounds, bs`taken, bs`offered, bs.mapped
    ensures ValidOps(PublishOps(name, ptr))
    ensures Request(iodata, PublishOps(name, ptr)).flags.overflow ==> status == Some(-1) && unchanged(bs)
    ensures !Request(iodata, PublishOps(name, ptr)).flags.overflow ==>
              Offered(bs.offered, old(bs.offered), target, 3, Request(iodata, PublishOps(name, ptr)))
    ensures !Request(iodata, PublishOps(name, ptr)).flags.overflow ==>
              var run := Calling(Hooks(None, bs.death, bs.stack), bs.mapped.Length, old(bs.world), old(bs.log),
                                 old(bs.rounds));
              match run.end
              case Blocked => status == None && bs.log == run.log
              case CallFailed => status == Some(-1) && bs.log == run.log
              case Replied(i) => status == Some(PublishStatus(i)) && bs.log == run.log + [FreeBuffer(i.base)]
  {
    hide Calling, Bio.Received, Bio.Written, Reader.GetUint32, PutAll, PublishOps;
    var msg;
    msg, iodata := PublishMessage(name, ptr);
    var reply := new Bio(msg.mem);
    ghost var run := Calling(Hooks(None, bs.death, bs.stack), bs.mapped.Length, bs.world, bs.log, bs.rounds);
    RepliesAreShared(Hooks(None, bs.death, bs.stack), bs.mapped.Length, bs.world, bs.log, bs.rounds);
    var res, junk := bs.Call(msg, reply, target, SVC_MGR_ADD_SERVICE);
    if res == None {
      return None, iodata;
    }
    if res.value != 0 {
      return Some(-1), iodata;
    }
    ReceivedFields(reply);
    Uint32Keeps(reply.Received());
    var n := reply.GetUint32();
    ReceivedFields(reply);
    bs.Done(reply);
    status := Some(Signed(n));
  }

  lemma RepliesAreShared<S>(hooks: Hooks<S>, size: nat, world: S, log: seq<Bc>, rounds: seq<Round>)
    requires ValidRounds(rounds, size)
    ensures var run := Calling(hooks, size, world, log, rounds);
            run.end.Replied? ==> run.end.reply.flags == SHARED
  {
    if Calling(hooks, size, world, log, rounds).end.Replied? {
      CallReply(hooks, size, world, log, rounds);
    }
  }

  lemma Uint32Keeps(i: In)
    ensures GetUint32(i).0.base == i.base && GetUint32(i).0.flags.shared == i.flags.shared
  {
  }

  lemma WrittenFlags(msg: Bio)
    requires msg.ValidOut()
    ensures msg.Written().flags == msg.flags
  {
  }

  lemma ReceivedFields(reply: Bio)
    requires reply.ValidIn()
    ensures reply.Received().flags == reply.flags && reply.Received().base == reply.data0
  {
  }

  method LookupMessage(name: Option<seq<byte>>) returns (msg: Bio, ghost iodata: MessageBuffer)
    requires CString(name)
    ensures fresh(msg) && fresh(msg.mem) && msg.ValidOut() && ValidOps(LookupOps(name))
    ensures msg.Written() == Request(iodata, LookupOps(name)) && msg.Written().flags == msg.flags
  {
    hide Bio.Written, PutUint32, PutString16X, PutObj, PutAll, LookupOps, HeaderPut;
    msg, iodata := NewMessage();
    msg.PutString16X(name);
    PutsInOrder(Fresh(iodata, MESSAGE_SLOTS), name, 0);
    WrittenFlags(msg);
  }

  /** What svcmgr_lookup writes after a reply: it takes its own reference on a handle found
      before it gives back the buffer that brought it. */
  function LookupLog(reply: In): seq<Bc> {
    var h := GetRef(reply).1;
    (if h != 0 then [Acquire(h)] else []) + [FreeBuffer(reply.base)]
  }

  /** svcmgr_lookup. The result is missing while the call still waits for the driver. */
  method Lookup<S>(bs: Binder<S>, target: u32, name: Option<seq<byte>>)
    returns (handle: Option<u32>, ghost iodata: MessageBuffer)
    requires bs.ValidScript() && CString(name)
    modifies bs`world, bs`log, bs`rounds, bs`taken, bs`offered, bs.mapped
    ensures ValidOps(LookupOps(name))
    ensures Request(iodata, LookupOps(name)).flags.overflow ==> handle == Some(0) && unchanged(bs)
    ensures !Request(iodata, LookupOps(name)).flags.overflow ==>
              Offered(bs.offered, old(bs.offered), target, 2, Request(iodata, LookupOps(name)))
    ensures !Request(iodata, LookupOps(name)).flags.overflow ==>
              var run := Calling(Hooks(None, bs.death, bs.stack), bs.mapped.Length, old(bs.world), old(bs.log),
                                 old(bs.rounds));
              match run.end
              case Blocked => handle == None && bs.log == run.log
              case CallFailed => handle == Some(0) && bs.log == run.log
              case Replied(i) => handle == Some(GetRef(i).1) && bs.log == run.log + LookupLog(i)
  {
    hide Calling, Bio.Received, Bio.Written, Reader.GetRef, PutAll, LookupOps;
    var msg;
    msg, iodata := LookupMessage(name);
    var reply := new Bio(msg.mem);
    ghost var run := Calling(Hooks(None, bs.death, bs.stack), bs.mapped.Length, bs.world, bs.log, bs.rounds);
    RepliesAreShared(Hooks(None, bs.death, bs.stack), bs.mapped.Length, bs.world, bs.log, bs.rounds);
    var res, junk := bs.Call(msg, reply, target, SVC_MGR_CHECK_SERVICE);
    if res == None {
      return None, iodata;
    }
    if res.value != 0 {
      return Some(0), iodata;
    }
    ReceivedFields(reply);
    RefKeeps(reply.Received());
    var h := reply.GetRef();
    ReceivedFields(reply);
    if h != 0 {
      bs.Acquire(h);
    }
    bs.Done(reply);
    handle := Some(h);
  }

  lemma RefKeeps(i: In)
    ensures GetRef(i).0.base == i.base && GetRef(i).0.flags.shared == i.flags.shared
  {
  }

  // ---------------------------------------------------------------------------------------
  // Requests on the wire
  // ---------------------------------------------------------------------------------------

  /** A name as a C string argument. */
  predicate PlainName(name: seq<byte>) {
    0 !in name
  }

  function NameArg(name: seq<byte>): Option<seq<byte>> {
    Some(name + [0])
  }

  lemma NameString(name: seq<byte>)
    requires PlainName(name)
    ensures CString(NameArg(name)) && StrLen(name + [0]) == |name|
    ensures |name| < MAX_UNITS ==> StoredUnitsX(NameArg(name)) == Some(Widen(name) + [0])
  {
    var s := name + [0];
    assert s[|name|] == 0 && s[..|name|] == name;
    StrLenUnique(s, |name|);
  }

  lemma NeedOne(op: PutOp, ops: seq<PutOp>)
    requires ValidOp(op) && ValidOps(ops)
    ensures ValidOps([op] + ops) && TotalNeed([op] + ops) == Need(op) + TotalNeed(ops)
    ensures Wires([op] + ops) == if Listed(op) then [ListedWire(op)] + Wires(ops) else Wires(ops)
  {
    var all := [op] + ops;
    assert all[0] == op && all[1..] == ops;
  }

  /** The space the characters of a name argument ask for. A null pointer, and a string of
      MAX_UNITS characters or more, is sent as the null marker, a length word alone. */
  function NameNeed(name: Option<seq<byte>>): nat
    requires CString(name)
  {
    if Storable(name) then Align4(2 * (StrLen(name.value) + 1)) else 0
  }

  /** The space a lookup and a publish ask for, for every name argument. */
  lemma RequestNeeds(name: Option<seq<byte>>, ptr: u64)
    requires CString(name)
    ensures ValidOps(LookupOps(name)) && ValidOps(PublishOps(name, ptr))
    ensures TotalNeed(LookupOps(name)) == 72 + NameNeed(name)
    ensures TotalNeed(PublishOps(name, ptr)) == 104 + NameNeed(name)
    ensures Wires(LookupOps(name)) == [] && Wires(PublishOps(name, ptr)) == [Binder(ptr)]
  {
    hide Align4, TotalNeed, Wires, LookupOps, PublishOps, HeaderOps;
    OpsValid(name, ptr);
    var u, n, b := PutU32(0), PutStrX(name), PutBinder(ptr);
    assert Need(u) == 4 && Need(n) == 4 + NameNeed(name) && Need(b) == 24;
    assert !Listed(u) && !Listed(n) && Listed(b) && ListedWire(b) == Binder(ptr);
    hide Need, Listed, ListedWire, Storable, CString, NameNeed;
    NeedNothing();
    var e: seq<PutOp> := [];
    var p1 := [u] + e;
    var p2 := [u] + p1;
    var p3 := [b] + p2;
    var p4 := [n] + p3;
    NeedOne(u, e); NeedOne(u, p1); NeedOne(b, p2); NeedOne(n, p3); NeedOne(n, e);
    HeaderNeeds(p4);
    HeaderNeeds([n] + e);
    RequestShapes(name, ptr);
  }

  lemma RequestShapes(name: Option<seq<byte>>, ptr: u64)
    ensures PublishOps(name, ptr)
         == HeaderOps() + ([PutStrX(name)] + ([PutBinder(ptr)] + ([PutU32(0)] + ([PutU32(0)] + []))))
    ensures LookupOps(name) == HeaderOps() + ([PutStrX(name)] + [])
  {
  }

  /** The header asks for 68 bytes and no table entry. */
  lemma HeaderNeeds(ops: seq<PutOp>)
    requires ValidOps(ops)
    ensures ValidOps(HeaderOps() + ops) && TotalNeed(HeaderOps() + ops) == 68 + TotalNeed(ops)
    ensures Wires(HeaderOps() + ops) == Wires(ops)
  {
    hide Align4, TotalNeed, Wires;
    IdString();
    AlignId();
    var u, id := PutU32(0), PutStrX(Some(MANAGER_ID + [0]));
    assert Need(u) == 4 && Need(id) == 60 && !Listed(u) && !Listed(id);
    hide Need, Listed, Storable, CString;
    var p1 := [id] + ops;
    var p2 := [u] + p1;
    NeedOne(id, ops); NeedOne(u, p1); NeedOne(u, p2);
    assert [u] + p2 == HeaderOps() + ops;
  }

  lemma AlignId()
    ensures Align4(54) == 56
  {
  }

  lemma NeedNothing()
    ensures TotalNeed([]) == 0 && Wires([]) == []
  {
  }

  /** Every request starts with two words of 0, the strict mode and the work source. */
  lemma HeaderWords(iodata: MessageBuffer, ops: seq<PutOp>)
    requires ValidOps(HeaderOps() + ops)
    ensures [0, 0, 0, 0, 0, 0, 0, 0] <= Request(iodata, HeaderOps() + ops).bytes
  {
    var o, u, all := Fresh(iodata, MESSAGE_SLOTS), PutU32(0), HeaderOps() + ops;
    var two := [u, u];
    assert all[..2] == two && [u] + [u] == two && [] + [u] == [u];
    NoPuts(o);
    PutAllNext(o, [], u);
    PutAllNext(o, [u], u);
    var p := PutAll(o, two);
    assert p.bytes == [0, 0, 0, 0, 0, 0, 0, 0] by {
      hide PutAll;
      ZeroPut(o);
      ZeroPut(PutUint32(o, 0));
    }
    PutAllSplit(o, all, 2);
    PutAllExtends(p, all[2..]);
    hide PutAll;
    assert p.bytes <= PutAll(o, all).bytes;
  }

  lemma ZeroPut(o: Out)
    requires |o.room| >= 4
    ensures PutUint32(o, 0).bytes == o.bytes + [0, 0, 0, 0] && PutUint32(o, 0).room == o.room[4..]
  {
    assert Le32(0) == [0, 0, 0, 0] && o.room[4..4] == [];
  }

  /** Lengths, for every name argument: a publish overflows its message exactly from 188 to
      2^29 - 1 characters, a lookup from 204; an overflowed message is refused before any
      ioctl. A null pointer and still longer strings fit, as the null marker. */
  lemma RequestFits(iodata: MessageBuffer, name: Option<seq<byte>>, ptr: u64)
    requires CString(name)
    ensures ValidOps(LookupOps(name)) && ValidOps(PublishOps(name, ptr))
    ensures Request(iodata, PublishOps(name, ptr)).flags.overflow
            <==> name.Some? && 188 <= StrLen(name.value) < 0x2000_0000
    ensures Request(iodata, LookupOps(name)).flags.overflow
            <==> name.Some? && 204 <= StrLen(name.value) < 0x2000_0000
    ensures !Storable(name) ==> |Request(iodata, PublishOps(name, ptr)).bytes| == 104
    ensures !Storable(name) ==> |Request(iodata, LookupOps(name)).bytes| == 72
  {
    hide Align4, TotalNeed, Wires, PutAll;
    RequestNeeds(name, ptr);
    var o := Fresh(iodata, MESSAGE_SLOTS);
    OverflowExactly(o, PublishOps(name, ptr));
    OverflowExactly(o, LookupOps(name));
    if Storable(name) {
      AlignBounds(StrLen(name.value));
    }
  }

  lemma AlignBounds(n: nat)
    requires n < MAX_UNITS
    ensures 104 + Align4(2 * (n + 1)) > 480 <==> n >= 188
    ensures 72 + Align4(2 * (n + 1)) > 480 <==> n >= 204
  {
    Align4Exact(2 * (n + 1));
  }

  /** Whether the message of a publish, or of a lookup, of a name is sent at all. */
  predicate PublishFits(name: seq<byte>) {
    |name| <= 187 || |name| >= 0x2000_0000
  }

  predicate LookupFits(name: seq<byte>) {
    |name| <= 203 || |name| >= 0x2000_0000
  }
}
