/** What svcmgr_publish and svcmgr_lookup achieve, from the client's arguments to the client's
    result, through both encoders, the driver, the manager's registry and the reply. */
module EndToEnd {
  import opened Words
  import opened Writer
  import opened Reader
  import opened Delivery
  import opened Commands
  import opened Parser
  import opened Registry
  import opened Manager
  import opened Clients
  import opened WireProtocol
  import opened Driver
  import opened System

  // ---------------------------------------------------------------------------------------
  // Publishing
  // ---------------------------------------------------------------------------------------

  /** A transaction with the message of svcmgr_publish for a name argument. */
  ghost predicate AsksPublish(r: Req, iodata: MessageBuffer, arg: Option<seq<byte>>, ptr: u64)
    requires CString(arg)
  {
    OpsValid(arg, ptr);
    var f := Request(iodata, PublishOps(arg, ptr));
    && r.bytes == f.bytes && r.offsets == f.offsets
    && r.sec.txn.target == 0 && r.sec.txn.code == 3 && r.sec.txn.flags % 2 == 0
  }

  lemma TwoWayPublish(r: Req, iodata: MessageBuffer, arg: Option<seq<byte>>, ptr: u64)
    requires CString(arg) && AsksPublish(r, iodata, arg, ptr)
    ensures r.sec.txn.flags % 2 == 0
  {
  }

  ghost predicate IsPublish(r: Req, iodata: MessageBuffer, name: seq<byte>, ptr: u64)
    requires PlainName(name)
  {
    NameString(name);
    AsksPublish(r, iodata, NameArg(name), ptr)
  }

  lemma TwoWayName(r: Req, iodata: MessageBuffer, name: seq<byte>, ptr: u64)
    requires PlainName(name) && IsPublish(r, iodata, name, ptr)
    ensures r.sec.txn.flags % 2 == 0
  {
    NameString(name);
    TwoWayPublish(r, iodata, NameArg(name), ptr);
  }

  /** When a publish is to be accepted: the object is not the manager's own, the name has 1 to 127
      characters, the sender's user is not an app's (its id within the user is below 10000), the
      security policy lets this sender add this name, and there is a record for the name or room
      for one. */
  predicate Welcome(s: Sys, sender: nat, name: seq<byte>, t: TxnSec, pol: Policy) {
    && sender != MANAGER && 1 <= |name| <= 127
    && t.txn.senderEuid % 100000 < 10000
    && (pol.mayAdd)(Widen(name), Caller(t.txn.senderEuid, t.txn.senderPid, t.secctx))
    && ((exists r | r in s.reg :: r.name == Widen(name)) || (pol.memory && |s.reg| < TWO64))
  }

  /** A publish message that fits lists its one object. */
  lemma PublishBytes(iodata: MessageBuffer, arg: Option<seq<byte>>, ptr: u64)
    requires CString(arg) && !(Storable(arg) && StrLen(arg.value) >= 188)
    ensures ValidOps(PublishOps(arg, ptr))
    ensures var f := Request(iodata, PublishOps(arg, ptr));
            WellPut(f) && MessageWires(f.bytes, f.offsets) == Some([Binder(ptr)])
  {
    hide PutAll, Wires, WireAt, PublishOps, MessageWires, TotalNeed, WellPut;
    RequestNeeds(arg, ptr);
    RequestFits(iodata, arg, ptr);
    var o := Fresh(iodata, MESSAGE_SLOTS);
    FreshWellPut(o);
    WiresFound(o, PublishOps(arg, ptr));
    var f := Request(iodata, PublishOps(arg, ptr));
    assert f.offsets[|o.offsets| + 0] == f.offsets[0];
    assert Wires(PublishOps(arg, ptr))[0] == Binder(ptr);
    SpacedPut(f);
    OneWire(f.bytes, f.offsets, Binder(ptr));
  }

  lemma FreshWellPut(o: Out)
    requires o.bytes == [] && o.offsets == []
    ensures WellPut(o)
  {
  }

  lemma SpacedPut(f: Out)
    requires WellPut(f)
    ensures Spaced(f.offsets, |f.bytes|)
  {
  }

  /** The registration a waiting publish request turns into. */
  lemma PublishArrives(s: Sys, i: nat, iodata: MessageBuffer, name: seq<byte>, ptr: u64)
    requires SysInv(s) && i < |s.queue| && PlainName(name) && |name| <= 187
             && IsPublish(s.queue[i].r, iodata, name, ptr)
    ensures var q := s.queue[i];
            var a := Requested(q.r.sec, q.msg);
            && a.Some?
            && a.value == AddArgs(Widen(name), a.value.handle,
                                  Caller(q.r.sec.txn.senderEuid, q.r.sec.txn.senderPid, q.r.sec.secctx), false, 0)
            && (a.value.handle == 0 <==> q.r.sender == MANAGER)
            && (q.r.sender != MANAGER ==> Subject(s.mgr, a.value.handle) == Node(q.r.sender, ptr))
  {
    hide Requested, AddRequest, Header, Request, PublishOps, SysInv, Delivered, WireAt, Widen, NameArg;
    hide MessageWires;
    var q := s.queue[i];
    NameString(name);
    OpsValid(NameArg(name), ptr);
    QueuedGenuine(s, i);
    PublishBytes(iodata, NameArg(name), ptr);
    PublishDecoded(iodata, name, ptr, q.wires[0], Buffer(q), CallerOf(q.r.sec));
    assert q.wires == [q.wires[0]];
    var ws := MessageWires(q.r.bytes, q.r.offsets).value;
    assert Meant(q.r.sender, q.r.from, MANAGER, ws[0], q.wires[0], s.mgr, q.pinned);
    RequestedIs(q.r.sec, q.msg, AddArgs(Widen(name), HandleOf(q.wires[0]), CallerOf(q.r.sec), false, 0));
  }

  lemma QueuedGenuine(s: Sys, i: nat)
    requires SysInv(s) && i < |s.queue|
    ensures Genuine(s.queue[i], s.mgr)
  {
  }

  lemma OneWire(bytes: seq<byte>, offsets: seq<nat>, w: Wire)
    requires |offsets| == 1 && Spaced(offsets, |bytes|) && WireAt(bytes, offsets[0]) == Some(w)
    ensures MessageWires(bytes, offsets) == Some([w])
  {
    forall k | 0 <= k < |offsets| ensures WireAt(bytes, offsets[k]).Some? {
      assert k == 0;
    }
    assert MessageWires(bytes, offsets).Some?;
    var ws := MessageWires(bytes, offsets).value;
    assert |ws| == 1 && ws[0] == w;
    assert ws == [w];
  }

  lemma RequestedIs(t: TxnSec, msg: In, a: AddArgs)
    requires t.txn.target == 0 && t.txn.code == SVC_MGR_ADD_SERVICE
    requires Header(msg).1 && AddRequest(CallerOf(t), Header(msg).0) == Some(a)
    ensures Requested(t, msg) == Some(a)
  {
  }

  /** The driver takes a publish request exactly when its buffer is free and it can hand the
      object over: it is the manager's own, or the manager has a handle for it, or the pick is a
      free handle. */
  lemma DriverTakesPublish(s: Sys, r: Req, iodata: MessageBuffer, arg: Option<seq<byte>>, ptr: u64)
    requires SysInv(s) && CString(arg) && !(Storable(arg) && StrLen(arg.value) >= 188)
    requires AsksPublish(r, iodata, arg, ptr) && |r.picks| == 1
    ensures Receive(s, r).Some?
            <==> && r.sec.txn.buffer !in s.mgr.pins
                 && (|| r.sender == MANAGER || Node(r.sender, ptr) in s.mgr.node.Values
                     || (r.picks[0] != 0 && r.picks[0] !in s.mgr.node))
  {
    hide Request, PublishOps, MessageWires, WireAt, Delivered;
    PublishBytes(iodata, arg, ptr);
    var n := Node(r.sender, ptr);
    var ws := MessageWires(r.bytes, r.offsets).value;
    assert ws == [Binder(ptr)] && ws[1..] == [] && NodeOf(r.sender, r.from, ws[0]) == Some(n);
    var b := Bind(s.mgr, MANAGER, n, r.picks[0]);
    var t := Translate(r.sender, r.from, MANAGER, s.mgr, ws, r.picks);
    if b.Some? {
      var rest := Translate(r.sender, r.from, MANAGER, b.value.view, ws[1..], r.picks[1..]);
      assert rest == Some(Translated(b.value.view, [], []));
      assert |t.value.wires| == 1;
    }
    if HandleFor(s.mgr, n).Some? {
      assert HandleFor(s.mgr, n).value in s.mgr.node;
    }
  }

  /** The reply to a request refused: a status, flagged 8, of -1. */
  const REFUSAL: Bc := SendReply(8, [255, 255, 255, 255], [])

  /** The reply command for what a handler has put. */
  function SentAs(o: Out): Bc {
    SendReply(0, o.bytes, o.offsets)
  }

  /** How the manager answers a registration. */
  lemma RegistrationReply(pol: Policy, reg: seq<Record>, t: TxnSec, msg: In, stack: StackBuffer)
    requires Requested(t, msg).Some? && WellFormedReg(reg)
    ensures ReplyOf(Manage(pol, reg, t, msg, ReplyBuffer(stack)))
         == if Accepts(pol, reg, Requested(t, msg).value)
            then SentAs(PutUint32(ReplyBuffer(stack), 0))
            else REFUSAL
  {
    EventIsEffect(reg, AddEvent(pol, Requested(t, msg).value));
    hide Header, AddRequest, Add, PutUint32, ReplyBuffer, Le32, WellFormedReg, Find, Registry.Effect;
    hide ApplyEvent, StatusWord;
    hide Manage, Register, Requested;
    ManageRegisters(pol, reg, t, msg, ReplyBuffer(stack));
    RegistrationStatus(pol, reg, CallerOf(t), Header(msg).0, ReplyBuffer(stack));
    MinusOne();
  }

  lemma ManageRegisters(pol: Policy, reg: seq<Record>, t: TxnSec, msg: In, reply: Out)
    requires Requested(t, msg).Some?
    ensures Manage(pol, reg, t, msg, reply) == Register(pol, reg, CallerOf(t), Header(msg).0, reply)
    ensures AddRequest(CallerOf(t), Header(msg).0) == Requested(t, msg)
  {
    hide Header, Register, AddRequest;
  }

  lemma RegistrationStatus(pol: Policy, reg: seq<Record>, c: Caller, msg: In, reply: Out)
    requires AddRequest(c, msg).Some?
    ensures var h, r := Register(pol, reg, c, msg, reply), Add(pol, reg, AddRequest(c, msg).value);
            if r.status == 0 then h.status == 0 && h.reply == PutUint32(reply, 0) else h.status == -1
  {
  }

  /** What an accepted registration does to the live names. */
  lemma NamesAfter(s: Sys, e: Event, n: Node, w: View, other: Name)
    requires SysInv(s) && e.AddEvent? && WellFormedReg(s.reg)
    ensures |AfterEvent(s, e, n, w).owners| == |AfterEvent(s, e, n, w).reg|
    ensures Accepted(s.reg, e) ==> LiveNode(AfterEvent(s, e, n, w), e.args.name) == Some(n)
    ensures !Accepted(s.reg, e) || other != e.args.name ==>
              LiveNode(AfterEvent(s, e, n, w), other) == LiveNode(s, other)
  {
    OwnersCounted(s, e, n, w);
    assert |s.owners| == |s.reg|;
    hide SysInv;
    if Accepted(s.reg, e) {
      NewlyNamed(s, e, n, w);
    }
    if !Accepted(s.reg, e) || other != e.args.name {
      OthersNamed(s, e, n, w, other);
    }
  }

  lemma NewlyNamed(s: Sys, e: Event, n: Node, w: View)
    requires WellFormedReg(s.reg) && |s.owners| == |s.reg| && Accepted(s.reg, e)
    requires |AfterEvent(s, e, n, w).owners| == |AfterEvent(s, e, n, w).reg|
    ensures LiveNode(AfterEvent(s, e, n, w), e.args.name) == Some(n)
  {
    EventKeeps(s.reg, e);
    hide ApplyEvent, WellFormedReg;
  }

  lemma OthersNamed(s: Sys, e: Event, n: Node, w: View, other: Name)
    requires WellFormedReg(s.reg) && |s.owners| == |s.reg| && e.AddEvent?
             && (!Accepted(s.reg, e) || other != e.args.name)
    requires |AfterEvent(s, e, n, w).owners| == |AfterEvent(s, e, n, w).reg|
    ensures LiveNode(AfterEvent(s, e, n, w), other) == LiveNode(s, other)
  {
    hide ApplyEvent;
    if Find(s.reg, other).Some? {
      SurvivesEvent(s.reg, e, other, Find(s.reg, other).value);
      if Accepted(s.reg, e) && Find(s.reg, e.args.name).Some? {
        assert Find(s.reg, e.args.name).value != Find(s.reg, other).value;
      }
    } else {
      StaysUnknown(s.reg, e, other);
    }
  }

  /** What a publisher reads in a reply without objects. */
  function StatusRead(reply: Bc, base: u64): int
    requires reply.SendReply?
  {
    PublishStatus(Delivered(base, reply.bytes, [], []))
  }

  /** Serving a transaction that registers nothing: only the buffer goes. */
  lemma IdleService(s: Sys, i: nat, pol: Policy, stack: StackBuffer, h: Handled<seq<Record>>)
    requires SysInv(s) && i < |s.queue| && Requested(s.queue[i].r.sec, s.queue[i].msg) == None
    requires h == Manage(pol, s.reg, s.queue[i].r.sec, s.queue[i].msg, ReplyBuffer(stack))
    ensures var o := Serve(s, i, pol, stack);
            && o.Completed? && SysInv(o.sys) && o.sys == s.(mgr := o.sys.mgr, queue := Without(s.queue, i))
            && (Answered(o) <==> s.queue[i].r.sec.txn.flags % 2 == 0) && (Answered(o) ==> Reply(o) == ReplyOf(h))
  {
    hide SysInv, Requested, Manage, ReplyBuffer, ExecAll, ServiceLog, Without;
    RequestSafe(s, i, pol, stack);
    ServeWrites(s, i, pol, stack);
    hide Answered, Reply;
  }

  /** Serving a transaction that asks for a registration. */
  lemma EventService(s: Sys, i: nat, pol: Policy, stack: StackBuffer, a: AddArgs)
    requires SysInv(s) && i < |s.queue| && Requested(s.queue[i].r.sec, s.queue[i].msg) == Some(a)
    ensures var o := Serve(s, i, pol, stack);
            && o.Completed?
            && o.sys == AfterEvent(s.(queue := Without(s.queue, i)), AddEvent(pol, a), Subject(s.mgr, a.handle),
                                   o.sys.mgr)
            && (Answered(o) <==> s.queue[i].r.sec.txn.flags % 2 == 0)
            && (Answered(o) ==> Reply(o) == ReplyOf(Manage(pol, s.reg, s.queue[i].r.sec, s.queue[i].msg,
                                                           ReplyBuffer(stack))))
  {
    hide SysInv, Requested, Manage, ReplyBuffer, ExecAll, ServiceLog, Without, Subject, ApplyEvent, Accepts, Target;
    RequestSafe(s, i, pol, stack);
    ServeWrites(s, i, pol, stack);
    hide Answered, Reply;
  }

  /** What serving a publish of object n under a name does, whether it is welcome or not: a
      welcome one is an accepted registration and makes the name stand for n, an unwelcome one
      changes no name, and neither touches any other. */
  ghost predicate PublishEffect(s: Sys, t: Sys, welcome: bool, name: Name, n: Node, other: Name) {
    && |s.owners| == |s.reg| && |t.owners| == |t.reg| && |t.origin| == |t.es|
    && (welcome <==> |t.es| == |s.es| + 1 && Accepted(s.reg, t.es[|s.es|]))
    && (welcome ==> t.origin[|s.es|] == n && LiveNode(t, name) == Some(n))
    && (!welcome || other != name ==> LiveNode(t, other) == LiveNode(s, other))
  }

  /** svcmgr_publish, end to end, for every name whose message is sent. Decoded by the client
      the result is 0 exactly when the manager accepted, and -1 otherwise; an accepted publish
      makes the name stand for the very object published, a refused one changes no name, and
      neither touches any other name. */
  lemma PublishEndToEnd(s: Sys, i: nat, iodata: MessageBuffer, name: seq<byte>, ptr: u64,
                        pol: Policy, stack: StackBuffer, base: u64, other: Name)
    requires SysInv(s) && i < |s.queue| && PlainName(name) && PublishFits(name)
             && IsPublish(s.queue[i].r, iodata, name, ptr)
    ensures var r, o := s.queue[i].r, Serve(s, i, pol, stack);
            var welcome := Welcome(s, r.sender, name, r.sec, pol);
            && Answered(o) && Reply(o).offsets == []
            && StatusRead(Reply(o), base) == (if welcome then 0 else -1)
            && PublishEffect(s, o.sys, welcome, Widen(name), Node(r.sender, ptr), other)
            && (r.sec.txn.senderEuid % 100000 >= 10000 ==>
                  StatusRead(Reply(o), base) == -1 && LiveNode(o.sys, other) == LiveNode(s, other))
  {
    hide SysInv, PublishStatus, Delivered, Le32, Widen;
    if |name| < MAX_UNITS {
      StoredPublish(s, i, iodata, name, ptr, pol, stack, base, other);
    } else {
      NameString(name);
      NamelessPublish(s, i, iodata, NameArg(name), ptr, pol, stack, base);
      AsManyOwners(s);
    }
  }

  lemma AsManyOwners(s: Sys)
    requires SysInv(s)
    ensures |s.owners| == |s.reg| && |s.origin| == |s.es| && WellFormedReg(s.reg)
  {
    RunKeeps(s.es, 0);
  }

  /** The service of a publish whose name is stored. */
  lemma PublishService(s: Sys, i: nat, iodata: MessageBuffer, name: seq<byte>, ptr: u64, pol: Policy,
                       stack: StackBuffer)
    requires SysInv(s) && i < |s.queue| && PlainName(name) && |name| <= 187
             && IsPublish(s.queue[i].r, iodata, name, ptr)
    ensures var q, o := s.queue[i], Serve(s, i, pol, stack);
            var a := Requested(q.r.sec, q.msg);
            var welcome := Welcome(s, q.r.sender, name, q.r.sec, pol);
            && Answered(o) && a.Some? && a.value.name == Widen(name) && (Accepts(pol, s.reg, a.value) <==> welcome)
            && o.sys == AfterEvent(s.(queue := Without(s.queue, i)), AddEvent(pol, a.value),
                                   Subject(s.mgr, a.value.handle), o.sys.mgr)
            && (welcome ==> Subject(s.mgr, a.value.handle) == Node(q.r.sender, ptr))
            && Reply(o) == if welcome then SentAs(PutUint32(ReplyBuffer(stack), 0))
                          else REFUSAL
  {
    hide SysInv, Serve, Manage, Requested, ReplyBuffer, IsPublish, PutUint32, Le32, AfterEvent, Find, Subject;
    hide Widen, WellFormedReg, Without;
    var q := s.queue[i];
    AsManyOwners(s);
    TwoWayName(q.r, iodata, name, ptr);
    PublishArrives(s, i, iodata, name, ptr);
    EventService(s, i, pol, stack, Requested(q.r.sec, q.msg).value);
    RegistrationReply(pol, s.reg, q.r.sec, q.msg, stack);
  }

  lemma StoredPublish(s: Sys, i: nat, iodata: MessageBuffer, name: seq<byte>, ptr: u64,
                      pol: Policy, stack: StackBuffer, base: u64, other: Name)
    requires SysInv(s) && i < |s.queue| && PlainName(name) && |name| <= 187
             && IsPublish(s.queue[i].r, iodata, name, ptr)
    ensures var r, o := s.queue[i].r, Serve(s, i, pol, stack);
            var welcome := Welcome(s, r.sender, name, r.sec, pol);
            && Answered(o) && Reply(o).offsets == []
            && StatusRead(Reply(o), base) == (if welcome then 0 else -1)
            && PublishEffect(s, o.sys, welcome, Widen(name), Node(r.sender, ptr), other)
  {
    hide SysInv, Serve, ReplyBuffer, Welcome, IsPublish, Delivered, PutUint32, PublishStatus, Le32, Requested;
    hide Subject, Find, ApplyEvent, Accepts, Target, Widen, WellFormedReg;
    var q, o := s.queue[i], Serve(s, i, pol, stack);
    PublishService(s, i, iodata, name, ptr, pol, stack);
    var a := Requested(q.r.sec, q.msg).value;
    var e, n := AddEvent(pol, a), Subject(s.mgr, a.handle);
    AsManyOwners(s);
    NamesAfter(s, e, n, o.sys.mgr, other);
    ZeroReply(stack, base);
    StatusReply(base);
    MinusOne();
    hide LiveNode;
    SameNames(AfterEvent(s, e, n, o.sys.mgr), o.sys, a.name);
    SameNames(AfterEvent(s, e, n, o.sys.mgr), o.sys, other);
  }

  /** What stands for a name depends on records and owners alone. */
  lemma SameNames(t: Sys, u: Sys, name: Name)
    requires t.reg == u.reg && t.owners == u.owners && |t.owners| == |t.reg|
    ensures LiveNode(t, name) == LiveNode(u, name)
  {
  }

  /** A null pointer, or a string of 2^29 characters or more, for a name: the message fits and is
      sent, the manager reads no request in it, the client gets -1, and nothing changes but the
      buffer. */
  lemma NamelessPublish(s: Sys, i: nat, iodata: MessageBuffer, arg: Option<seq<byte>>, ptr: u64,
                        pol: Policy, stack: StackBuffer, base: u64)
    requires SysInv(s) && i < |s.queue| && CString(arg) && !Storable(arg) && AsksPublish(s.queue[i].r, iodata, arg, ptr)
    ensures ValidOps(PublishOps(arg, ptr)) && !Request(iodata, PublishOps(arg, ptr)).flags.overflow
    ensures var o := Serve(s, i, pol, stack);
            && Answered(o) && Reply(o) == REFUSAL
            && StatusRead(Reply(o), base) == -1
            && o.sys == s.(mgr := o.sys.mgr, queue := Without(s.queue, i))
  {
    hide SysInv, Serve, Requested, ReplyBuffer, PublishStatus, Le32, Request, PublishOps, Delivered;
    hide AsksPublish, Manage;
    hide Without;
    RequestFits(iodata, arg, ptr);
    TwoWayPublish(s.queue[i].r, iodata, arg, ptr);
    NamelessRefused(s, i, iodata, arg, ptr, pol, ReplyBuffer(stack));
    IdleService(s, i, pol, stack, Handled(s.reg, [], ReplyBuffer(stack), -1));
    StatusReply(base);
    MinusOne();
  }

  lemma NamelessRefused(s: Sys, i: nat, iodata: MessageBuffer, arg: Option<seq<byte>>, ptr: u64, pol: Policy,
                        reply: Out)
    requires SysInv(s) && i < |s.queue| && CString(arg) && !Storable(arg) && AsksPublish(s.queue[i].r, iodata, arg, ptr)
    ensures var t, msg := s.queue[i].r.sec, s.queue[i].msg;
            Requested(t, msg) == None && Manage(pol, s.reg, t, msg, reply) == Handled(s.reg, [], reply, -1)
  {
    hide SysInv, AddRequest, Header, Request, PublishOps, Delivered, WireAt, MessageWires, Requested, Manage;
    hide CString, Storable;
    var q := s.queue[i];
    QueuedMessage(s, i);
    PublishBytes(iodata, arg, ptr);
    NamelessPublishDecoded(iodata, arg, ptr, q.wires[0], Buffer(q), CallerOf(q.r.sec));
    assert q.wires == [q.wires[0]];
    NothingRequested(pol, s.reg, q.r.sec, q.msg, reply);
  }

  /** A waiting message is the delivered form of what was sent. */
  lemma QueuedMessage(s: Sys, i: nat)
    requires SysInv(s) && i < |s.queue|
    ensures var q := s.queue[i];
            && MessageWires(q.r.bytes, q.r.offsets).Some? && |q.wires| == |q.r.offsets|
            && q.msg == Delivered(Buffer(q), q.r.bytes, q.r.offsets, q.wires)
  {
    QueuedGenuine(s, i);
  }

  lemma NothingRequested(pol: Policy, reg: seq<Record>, t: TxnSec, msg: In, reply: Out)
    requires t.txn.target == 0 && t.txn.code == SVC_MGR_ADD_SERVICE && Header(msg).1
             && AddRequest(CallerOf(t), Header(msg).0) == None
    ensures Requested(t, msg) == None && Manage(pol, reg, t, msg, reply) == Handled(reg, [], reply, -1)
  {
    hide Header, AddRequest;
  }

  // ---------------------------------------------------------------------------------------
  // Looking up
  // ---------------------------------------------------------------------------------------

  /** A transaction with the message of svcmgr_lookup for a name argument. */
  ghost predicate AsksLookup(r: Req, iodata: MessageBuffer, arg: Option<seq<byte>>)
    requires CString(arg)
  {
    OpsValid(arg, 0);
    var f := Request(iodata, LookupOps(arg));
    && r.bytes == f.bytes && r.offsets == f.offsets
    && r.sec.txn.target == 0 && r.sec.txn.flags % 2 == 0 && 1 <= r.sec.txn.code <= 2
  }

  ghost predicate IsLookup(r: Req, iodata: MessageBuffer, name: seq<byte>)
    requires PlainName(name)
  {
    NameString(name);
    AsksLookup(r, iodata, NameArg(name))
  }

  /** Whether the sender of a transaction is to find a name: there is a record of it, which allows
      isolated callers unless the sender's user is none (its id within the user is not from 99000
      to 99999), and the security policy lets this sender find this name. */
  predicate MayFind(s: Sys, name: Name, t: TxnSec, pol: Policy) {
    && (exists r | r in s.reg && r.name == name ::
          r.allowIsolated || !(99000 <= t.txn.senderEuid % 100000 <= 99999))
    && (pol.mayFind)(name, Caller(t.txn.senderEuid, t.txn.senderPid, t.secctx))
  }

  /** What do_find_service returns: the record's handle when the name is live and the caller may
      find it; and that handle denotes the object registered. */
  lemma FoundHandle(s: Sys, name: Name, t: TxnSec, pol: Policy)
    requires SysInv(s)
    ensures var h := FindService(pol, s.reg, name, CallerOf(t));
            && (h != 0 <==> LiveNode(s, name).Some? && MayFind(s, name, t, pol))
            && (h != 0 ==> Denotes(s.mgr, h, LiveNode(s, name).value))
  {
    var id := Find(s.reg, name);
    AsManyOwners(s);
    forall r | r in s.reg && r.name == name ensures id.Some? && AtId(s.reg, id.value) == r {
      RecordFound(s.reg, r);
    }
    if id.Some? && AtId(s.reg, id.value).handle != 0 {
      assert AtId(s.reg, id.value) in s.reg;
      assert Denotes(s.mgr, AtId(s.reg, id.value).handle, s.owners[id.value]);
    }
  }

  /** How the manager answers a lookup: the registry is as before, and the reply is a reference
      to the handle found or the plain reply. */
  lemma LookupServed(s: Sys, i: nat, iodata: MessageBuffer, name: seq<byte>, pol: Policy, stack: StackBuffer)
    requires SysInv(s) && i < |s.queue| && PlainName(name) && |name| <= 203 && IsLookup(s.queue[i].r, iodata, name)
    ensures var o := Serve(s, i, pol, stack);
            var h := FindService(pol, s.reg, Widen(name), CallerOf(s.queue[i].r.sec));
            var reply := if h == 0 then PutUint32(ReplyBuffer(stack), 0) else PutRef(ReplyBuffer(stack), h);
            && o.Completed? && SysInv(o.sys) && o.sys == s.(mgr := o.sys.mgr, queue := Without(s.queue, i))
            && Answered(o) && Reply(o) == SendReply(0, reply.bytes, reply.offsets)
  {
    hide SysInv, Serve, CString, Storable, Header, Request, LookupOps, Delivered, MessageWires, ReplyBuffer;
    hide Manage, Requested, Widen, FindService, PutUint32, PutRef, Without, GetString16;
    var q, name16, reply := s.queue[i], Widen(name), ReplyBuffer(stack);
    var h := FindService(pol, s.reg, name16, CallerOf(q.r.sec));
    QueuedMessage(s, i);
    LookupDecoded(iodata, name, Buffer(q));
    assert q.wires == [];
    var units := GetString16(Header(q.msg).0).2.value;
    assert units[..|name|] == name16;
    LookupAnswered(pol, s.reg, q.r.sec, q.msg, reply);
    IdleService(s, i, pol, stack, Handled(s.reg, [], if h == 0 then PutUint32(reply, 0) else PutRef(reply, h), 0));
  }

  lemma LookupAnswered(pol: Policy, reg: seq<Record>, t: TxnSec, msg: In, reply: Out)
    requires t.txn.target == 0 && (t.txn.code == SVC_MGR_CHECK_SERVICE || t.txn.code == SVC_MGR_GET_SERVICE)
             && Header(msg).1
    ensures Requested(t, msg) == None
    ensures var (_, len, s) := GetString16(Header(msg).0);
            Manage(pol, reg, t, msg, reply)
            == if s.None? then Handled(reg, [], reply, -1)
               else var h := FindService(pol, reg, s.value[..len], CallerOf(t));
                 Handled(reg, [], if h == 0 then PutUint32(reply, 0) else PutRef(reply, h), 0)
  {
    hide Header, GetString16, FindService, PutUint32, PutRef;
  }

  /** A lookup of a null pointer, or of a string of 2^29 characters or more, is sent, answered
      with an error status, and yields no handle. */
  lemma NamelessLookup(s: Sys, i: nat, iodata: MessageBuffer, arg: Option<seq<byte>>, pol: Policy,
                       stack: StackBuffer, base: u64)
    requires SysInv(s) && i < |s.queue| && CString(arg) && !Storable(arg) && AsksLookup(s.queue[i].r, iodata, arg)
    ensures ValidOps(LookupOps(arg)) && !Request(iodata, LookupOps(arg)).flags.overflow
    ensures var o := Serve(s, i, pol, stack);
            && o.Completed? && SysInv(o.sys) && o.sys == s.(mgr := o.sys.mgr, queue := Without(s.queue, i))
            && Answered(o) && Reply(o) == REFUSAL
            && GetRef(Delivered(base, Reply(o).bytes, [], [])).1 == 0
  {
    hide SysInv, Serve, CString, Storable, Header, Request, LookupOps, Delivered, MessageWires, ReplyBuffer;
    hide Manage, Requested, GetRef, Le32, Without, GetString16;
    var q := s.queue[i];
    QueuedMessage(s, i);
    NamelessLookupDecoded(iodata, arg, Buffer(q));
    assert q.wires == [];
    LookupAnswered(pol, s.reg, q.r.sec, q.msg, ReplyBuffer(stack));
    IdleService(s, i, pol, stack, Handled(s.reg, [], ReplyBuffer(stack), -1));
    StatusReply(base);
    MinusOne();
  }

  /** Executing the log leaves one more reference on h than cv had, none on anything else, and h
      is there at every point. */
  ghost predicate Taken(cv: View, v: View, log: seq<Bc>, h: u32) {
    && ExecAll(v, log).Some?
    && (forall x: u32 :: RefCount(ExecAll(v, log).value, x) == RefCount(cv, x) + if h != 0 && x == h then 1 else 0)
    && (h != 0 ==> forall n :: 0 <= n <= |log| ==>
          ExecAll(v, log[..n]).Some? && h in ExecAll(v, log[..n]).value.refs)
  }

  /** Handle pinning in the client: from the delivery of the reply to the return of the lookup
      the handle found is never without a reference, because the client's own is taken before
      the buffer's is given back; it ends with exactly one reference more than before. */
  lemma ClientTakes(cv: View, p: Parcel, buffer: u64, h: u32)
    requires ValidView(cv) && ValidView(p.view) && buffer in p.view.pins && p.view.pins[buffer] == p.pinned
    requires forall x: u32 :: RefCount(p.view, x) == RefCount(cv, x) + Count(p.pinned, x)
    requires h != 0 ==> h in p.pinned
    ensures var log := (if h != 0 then [Acquire(h)] else []) + [FreeBuffer(buffer)];
            && Taken(cv, p.view, log, h)
            && Submap(ExecAll(p.view, log).value.node, p.view.node)
            && (h != 0 ==> h in ExecAll(p.view, log).value.node)
  {
    hide ValidView, DropAll, Submap, Count;
    var take := if h != 0 then [Acquire(h)] else [];
    var free := FreeBuffer(buffer);
    CountIn(p.pinned, h);
    assert RefCount(p.view, h) == RefCount(cv, h) + Count(p.pinned, h);
    var v1 := if h != 0 then Raise(p.view, h) else p.view;
    if h != 0 {
      RaiseEffect(p.view, h);
      ExecOne(p.view, Acquire(h));
    }
    assert ExecAll(p.view, take) == Some(v1) && v1.pins == p.view.pins && v1.node == p.view.node;
    var u := v1.(pins := v1.pins - {buffer});
    FewerPins(v1, buffer);
    hide Raise, ExecAll;
    forall x: u32 ensures RefCount(u, x) == RefCount(cv, x) + Count(p.pinned, x) + if h != 0 && x == h then 1 else 0 {
      assert RefCount(p.view, x) == RefCount(cv, x) + Count(p.pinned, x);
    }
    DropAllEffect(u, p.pinned);
    var w := DropAll(u, p.pinned).value;
    ExecOne(v1, free);
    assert Exec(v1, free) == Some(w);
    ExecConcat(p.view, take, [free]);
    if h != 0 {
      assert RefCount(w, h) >= 1;
      hide Exec, Submap;
      HeldThroughout(p.view, Acquire(h), free, h);
      KeptHandle(w, h);
    }
  }

  lemma FewerPins(v: View, b: u64)
    requires ValidView(v)
    ensures ValidView(v.(pins := v.pins - {b}))
  {
  }

  lemma KeptHandle(w: View, h: u32)
    requires ValidView(w) && RefCount(w, h) >= 1
    ensures h in w.node && h in w.refs
  {
  }

  /** Two commands, and the handle there before, between and after them. */
  lemma HeldThroughout(v: View, a: Bc, b: Bc, h: u32)
    requires h in v.refs && ExecAll(v, [a]).Some? && h in ExecAll(v, [a]).value.refs
    requires ExecAll(v, [a] + [b]).Some? && h in ExecAll(v, [a] + [b]).value.refs
    ensures forall n :: 0 <= n <= |[a] + [b]| ==>
              ExecAll(v, ([a] + [b])[..n]).Some? && h in ExecAll(v, ([a] + [b])[..n]).value.refs
  {
    var log := [a] + [b];
    assert log[..0] == [] && log[..1] == [a] && log[..2] == log;
    assert ExecAll(v, []) == Some(v);
    hide ExecAll;
    forall n | 0 <= n <= |log| ensures ExecAll(v, log[..n]).Some? && h in ExecAll(v, log[..n]).value.refs {
      assert n == 0 || n == 1 || n == 2;
    }
  }

  /** The reply to a lookup, as it reaches process q. */
  ghost function ReplyArrival(s: Sys, reply: Bc, q: nat, cv: View, picks: seq<u32>, buffer: u64): Option<Parcel>
    requires reply.SendReply?
  {
    Deliver(MANAGER, s.mgr, q, cv, reply.bytes, reply.offsets, picks, buffer)
  }

  /** What the client reads in the reply: for handle h0 of the manager, its own handle for the
      same object, or 0 when the object is its own. */
  lemma ReplyRead(s: Sys, h0: u32, stack: StackBuffer, q: nat, cv: View, picks: seq<u32>, buffer: u64)
    requires SysInv(s) && ValidView(cv) && (h0 != 0 ==> h0 in s.mgr.node)
    requires var r := if h0 == 0 then PutUint32(ReplyBuffer(stack), 0) else PutRef(ReplyBuffer(stack), h0);
             Deliver(MANAGER, s.mgr, q, cv, r.bytes, r.offsets, picks, buffer).Some?
    ensures var r := if h0 == 0 then PutUint32(ReplyBuffer(stack), 0) else PutRef(ReplyBuffer(stack), h0);
            var p := Deliver(MANAGER, s.mgr, q, cv, r.bytes, r.offsets, picks, buffer).value;
            var h := GetRef(p.msg).1;
            && p.msg.base == buffer
            && ValidView(p.view) && buffer in p.view.pins && p.view.pins[buffer] == p.pinned
            && (forall x: u32 :: RefCount(p.view, x) == RefCount(cv, x) + Count(p.pinned, x))
            && (h != 0 <==> h0 != 0 && s.mgr.node[h0].owner != q)
            && (h != 0 ==> h in p.pinned && Denotes(p.view, h, s.mgr.node[h0]))
  {
    hide PutUint32, PutRef, ReplyBuffer, Delivered, GetRef, Deliver, MessageWires, ValidView, WireAt;
    var r := if h0 == 0 then PutUint32(ReplyBuffer(stack), 0) else PutRef(ReplyBuffer(stack), h0);
    var p := Deliver(MANAGER, s.mgr, q, cv, r.bytes, r.offsets, picks, buffer).value;
    DeliverEffect(MANAGER, s.mgr, q, cv, r.bytes, r.offsets, picks, buffer);
    var v := p.view.(pins := cv.pins);
    assert p.view.node == v.node && p.view.refs == v.refs;
    SameTables(p.view, v);
    if h0 == 0 {
      ZeroReply(stack, buffer);
      assert p.wires == [];
    } else {
      RefReply(stack, h0, Binder(0), buffer);
      RefReply(stack, h0, p.wires[0], buffer);
      assert p.wires == [p.wires[0]];
      OneWire(r.bytes, r.offsets, Handle(h0));
      var ws := MessageWires(r.bytes, r.offsets).value;
      assert Meant(MANAGER, s.mgr, q, ws[0], p.wires[0], v, p.pinned);
    }
    DeliveredBase(buffer, r.bytes, r.offsets, p.wires);
  }

  /** The client's side of a lookup, for the handle the manager found. */
  lemma LookupReturns(s: Sys, h0: u32, stack: StackBuffer, q: nat, cv: View, picks: seq<u32>, buffer: u64)
    requires SysInv(s) && ValidView(cv) && (h0 != 0 ==> h0 in s.mgr.node)
    requires var r := if h0 == 0 then PutUint32(ReplyBuffer(stack), 0) else PutRef(ReplyBuffer(stack), h0);
             Deliver(MANAGER, s.mgr, q, cv, r.bytes, r.offsets, picks, buffer).Some?
    ensures var r := if h0 == 0 then PutUint32(ReplyBuffer(stack), 0) else PutRef(ReplyBuffer(stack), h0);
            var p := Deliver(MANAGER, s.mgr, q, cv, r.bytes, r.offsets, picks, buffer).value;
            var h, log := GetRef(p.msg).1, LookupLog(p.msg);
            && (h != 0 <==> h0 != 0 && s.mgr.node[h0].owner != q)
            && Taken(cv, p.view, log, h)
            && (h != 0 ==> Denotes(ExecAll(p.view, log).value, h, s.mgr.node[h0]))
  {
    hide PutUint32, PutRef, ReplyBuffer, GetRef, Deliver, ValidView, ExecAll, SysInv, Taken, RefCount, Count;
    var r := if h0 == 0 then PutUint32(ReplyBuffer(stack), 0) else PutRef(ReplyBuffer(stack), h0);
    var p := Deliver(MANAGER, s.mgr, q, cv, r.bytes, r.offsets, picks, buffer).value;
    ReplyRead(s, h0, stack, q, cv, picks, buffer);
    var h := GetRef(p.msg).1;
    ClientTakes(cv, p, buffer, h);
  }

  lemma DeliveredBase(buffer: u64, bytes: seq<byte>, offsets: seq<nat>, ws: seq<Wire>)
    requires Spaced(offsets, |bytes|) && |ws| == |offsets|
    ensures Delivered(buffer, bytes, offsets, ws).base == buffer
  {
  }

  lemma SameTables(a: View, b: View)
    requires a == b.(pins := a.pins)
    ensures ValidView(a) <==> ValidView(b)
    ensures forall x: u32 :: RefCount(a, x) == RefCount(b, x)
  {
  }

  /** The client's side of a reply without objects: no handle, and every count as before. */
  lemma NothingReturns(s: Sys, bytes: seq<byte>, q: nat, cv: View, picks: seq<u32>, buffer: u64)
    requires ValidView(cv) && Deliver(MANAGER, s.mgr, q, cv, bytes, [], picks, buffer).Some?
    ensures var p := Deliver(MANAGER, s.mgr, q, cv, bytes, [], picks, buffer).value;
            GetRef(p.msg).1 == 0 && Taken(cv, p.view, LookupLog(p.msg), 0)
  {
    hide GetRef, Deliver, Delivered, MessageWires, Taken, ExecAll;
    var p := Deliver(MANAGER, s.mgr, q, cv, bytes, [], picks, buffer).value;
    DeliverEffect(MANAGER, s.mgr, q, cv, bytes, [], picks, buffer);
    assert p.wires == [];
    NoTableNoHandle(buffer, bytes);
    DeliveredBase(buffer, bytes, [], []);
    var v := p.view.(pins := cv.pins);
    SameTables(p.view, v);
    ClientTakes(cv, p, buffer, 0);
  }

  /** A name longer than a record's stands for nothing. */
  lemma LongNeverLive(s: Sys, name: Name)
    requires SysInv(s) && |name| > MAX_NAME
    ensures LiveNode(s, name).None?
  {
    RunKeeps(s.es, 0);
  }

  /** svcmgr_lookup, end to end, for every name whose message is sent, every state and every
      client. A live name the caller may find yields a handle that denotes, in the client's own
      table, the very object last published under the name, and of which the client holds
      exactly one reference more than before, without its count ever having touched zero on the
      way. It yields 0 when the name is not live, when the caller may not find it, and, as the
      code has it, when the object is the client's own; then no count has changed. */
  lemma LookupEndToEnd(s: Sys, i: nat, iodata: MessageBuffer, name: seq<byte>, pol: Policy, stack: StackBuffer,
                       q: nat, cv: View, picks: seq<u32>, buffer: u64)
    requires SysInv(s) && i < |s.queue| && PlainName(name) && LookupFits(name) && IsLookup(s.queue[i].r, iodata, name)
    requires ValidView(cv)
    requires var o := Serve(s, i, pol, stack);
             Answered(o) && ReplyArrival(o.sys, Reply(o), q, cv, picks, buffer).Some?
    ensures var o := Serve(s, i, pol, stack);
            var p := ReplyArrival(o.sys, Reply(o), q, cv, picks, buffer).value;
            var h, log := GetRef(p.msg).1, LookupLog(p.msg);
            var live := LiveNode(s, Widen(name));
            && o.sys.reg == s.reg
            && (h != 0 <==>
                  live.Some? && MayFind(s, Widen(name), s.queue[i].r.sec, pol) && live.value.owner != q)
            && Taken(cv, p.view, log, h)
            && (h != 0 ==> Denotes(ExecAll(p.view, log).value, h, live.value))
  {
    var o, t := Serve(s, i, pol, stack), s.queue[i].r.sec;
    if |name| >= MAX_UNITS {
      NameString(name);
      NamelessLookup(s, i, iodata, NameArg(name), pol, stack, buffer);
      LongNeverLive(s, Widen(name));
      hide SysInv, ValidView, Serve, GetRef, Deliver, MayFind, ExecAll, Widen, LookupLog, Taken, LiveNode, IsLookup;
      NothingReturns(o.sys, Reply(o).bytes, q, cv, picks, buffer);
    } else {
      LookupServed(s, i, iodata, name, pol, stack);
      var h0 := FindService(pol, s.reg, Widen(name), CallerOf(t));
      FoundHandle(s, Widen(name), t, pol);
      FoundHandle(o.sys, Widen(name), t, pol);
      assert LiveNode(o.sys, Widen(name)) == LiveNode(s, Widen(name));
      hide SysInv, ValidView, Serve, GetRef, FindService, PutUint32, PutRef, ReplyBuffer, Deliver, MayFind;
      hide ExecAll, Widen, LookupLog, Taken, LiveNode;
      LookupReturns(o.sys, h0, stack, q, cv, picks, buffer);
    }
  }

  // ---------------------------------------------------------------------------------------
  // A publish, any run, a lookup
  // ---------------------------------------------------------------------------------------

  /** History is only ever added to. */
  lemma {:induction false} HistoryGrows(s: Sys, xs: seq<Stimulus>)
    requires SysInv(s) && RunSys(s, xs).Some?
    ensures s.es <= RunSys(s, xs).value.es && s.origin <= RunSys(s, xs).value.origin
    decreases |xs|
  {
    if xs != [] {
      ReactSafe(s, xs[0]);
      ReactGrows(s, xs[0]);
      hide SysInv, React;
      HistoryGrows(React(s, xs[0]).value, xs[1..]);
    }
  }

  lemma ReactGrows(s: Sys, x: Stimulus)
    requires React(s, x).Some?
    ensures s.es <= React(s, x).value.es && s.origin <= React(s, x).value.origin
  {
    hide Manage, Requested, Deliver, ExecAll, ApplyEvent, ServiceLog, Accepts, ReplyBuffer, Target;
  }

  lemma {:induction false} FirstRegistration(es: seq<Event>, k: nat, name: Name) returns (first: nat)
    requires k < |es| && Registers(es, k, name)
    ensures First(es, first, name)
    decreases k
  {
    if j :| 0 <= j < k && Registers(es, j, name) {
      first := FirstRegistration(es, j, name);
    } else {
      first := k;
    }
  }

  /** Nothing since event n registered the name again or announced its record's death. */
  ghost predicate Undisturbed(s: Sys, n: nat, name: Name) {
    var id := Find(s.reg, name);
    && id.Some?
    && forall k :: n <= k < |s.es| ==> !Registers(s.es, k, name) && s.es[k] != DeathEvent(Cookie(id.value))
  }

  /** An accepted publish holds through any later run in which the name is not registered again
      and no death carries its record's cookie: it still stands for the object published. */
  lemma PublishHolds(s: Sys, i: nat, iodata: MessageBuffer, name: seq<byte>, ptr: u64, pol: Policy, stack: StackBuffer,
                     ys: seq<Stimulus>)
    requires SysInv(s) && i < |s.queue| && PlainName(name) && IsPublish(s.queue[i].r, iodata, name, ptr)
    requires Welcome(s, s.queue[i].r.sender, name, s.queue[i].r.sec, pol)
    ensures var o := Serve(s, i, pol, stack);
            && o.Completed? && SysInv(o.sys) && RunSys(o.sys, ys).Some?
            && var s2 := RunSys(o.sys, ys).value;
            && SysInv(s2)
            && (Undisturbed(s2, |o.sys.es|, Widen(name)) ==>
                  LiveNode(s2, Widen(name)) == Some(Node(s.queue[i].r.sender, ptr)))
  {
    RequestSafe(s, i, pol, stack);
    PublishRegisters(s, i, iodata, name, ptr, pol, stack);
    var s1 := Serve(s, i, pol, stack).sys;
    RunsFrom(s1, ys);
    HistoryGrows(s1, ys);
    var s2 := RunSys(s1, ys).value;
    hide Serve, RunSys, IsPublish, Welcome, Widen;
    if Undisturbed(s2, |s1.es|, Widen(name)) {
      StandsSince(s2, s1, |s.es|, Widen(name));
    }
  }

  /** A name stands for the object of its last registration while it is undisturbed. */
  lemma StandsSince(s2: Sys, s1: Sys, last: nat, name: Name)
    requires SysInv(s2) && s1.es <= s2.es && s1.origin <= s2.origin && |s1.es| == last + 1 == |s1.origin|
    requires Registers(s1.es, last, name) && Undisturbed(s2, last + 1, name)
    ensures LiveNode(s2, name) == Some(s1.origin[last])
  {
    assert s2.es[..last] == s1.es[..last] && s2.es[last] == s1.es[last] && s2.origin[last] == s1.origin[last];
    assert Last(s2.es, last, name);
    var first := FirstRegistration(s2.es, last, name);
    LiveIsLastRegistered(s2, name, first, last);
    RecordHistory(s2.es, name, first, last);
  }

  /** The event an accepted publish leaves in the history. */
  lemma PublishRegisters(s: Sys, i: nat, iodata: MessageBuffer, name: seq<byte>, ptr: u64, pol: Policy,
                         stack: StackBuffer)
    requires SysInv(s) && i < |s.queue| && PlainName(name) && IsPublish(s.queue[i].r, iodata, name, ptr)
    requires Welcome(s, s.queue[i].r.sender, name, s.queue[i].r.sec, pol)
    ensures var o := Serve(s, i, pol, stack);
            && o.Completed? && |o.sys.es| == |s.es| + 1 == |o.sys.origin|
            && Registers(o.sys.es, |s.es|, Widen(name)) && o.sys.origin[|s.es|] == Node(s.queue[i].r.sender, ptr)
  {
    RequestSafe(s, i, pol, stack);
    PublishService(s, i, iodata, name, ptr, pol, stack);
    AsManyOwners(s);
    var s1 := Serve(s, i, pol, stack).sys;
    hide SysInv, Serve, Accepts, IsPublish, Requested, ReplyBuffer, Widen, Welcome, Subject, ApplyEvent;
    hide Target, PutUint32, Le32;
    assert s1.es[..|s.es|] == s.es;
  }

  /** A publish, any run whatever, a lookup: unless the name was registered again or its record's
      death announced in between, a client that may find the name gets, in its own table, a
      handle of the very object published, held by a reference of its own; only the publisher
      itself gets 0. */
  lemma PublishThenLookup(s: Sys, i: nat, iodata: MessageBuffer, name: seq<byte>, ptr: u64, pol: Policy,
                          stack: StackBuffer, ys: seq<Stimulus>,
                          i': nat, iodata': MessageBuffer, pol': Policy, stack': StackBuffer,
                          q: nat, cv: View, picks: seq<u32>, buffer: u64)
    requires SysInv(s) && i < |s.queue| && PlainName(name) && IsPublish(s.queue[i].r, iodata, name, ptr)
    requires Welcome(s, s.queue[i].r.sender, name, s.queue[i].r.sec, pol)
    requires Serve(s, i, pol, stack).Completed? && RunSys(Serve(s, i, pol, stack).sys, ys).Some?
    requires var s2 := RunSys(Serve(s, i, pol, stack).sys, ys).value;
             && Undisturbed(s2, |s.es| + 1, Widen(name))
             && i' < |s2.queue| && IsLookup(s2.queue[i'].r, iodata', name) && ValidView(cv)
             && var o := Serve(s2, i', pol', stack');
             Answered(o) && ReplyArrival(o.sys, Reply(o), q, cv, picks, buffer).Some?
    ensures var s2 := RunSys(Serve(s, i, pol, stack).sys, ys).value;
            var o := Serve(s2, i', pol', stack');
            var p := ReplyArrival(o.sys, Reply(o), q, cv, picks, buffer).value;
            var h, log := GetRef(p.msg).1, LookupLog(p.msg);
            && (h != 0 <==> MayFind(s2, Widen(name), s2.queue[i'].r.sec, pol') && q != s.queue[i].r.sender)
            && Taken(cv, p.view, log, h)
            && (h != 0 ==> Denotes(ExecAll(p.view, log).value, h, Node(s.queue[i].r.sender, ptr)))
  {
    PublishRegisters(s, i, iodata, name, ptr, pol, stack);
    PublishHolds(s, i, iodata, name, ptr, pol, stack, ys);
    var s2 := RunSys(Serve(s, i, pol, stack).sys, ys).value;
    hide Serve, RunSys, SysInv, Undisturbed, GetRef, LookupLog, Taken, MayFind, Deliver, ExecAll, ValidView;
    hide IsPublish, IsLookup;
    LookupEndToEnd(s2, i', iodata', name, pol', stack', q, cv, picks, buffer);
  }

  // ---------------------------------------------------------------------------------------
  // The message in the mapped area
  // ---------------------------------------------------------------------------------------

  function TableBytes(offsets: seq<u64>): (b: seq<byte>)
    ensures |b| == 8 * |offsets|
  {
    if offsets == [] then [] else TableBytes(offsets[..|offsets| - 1]) + Le64(offsets[|offsets| - 1])
  }

  lemma {:induction false} TableOfBytes(offsets: seq<u64>)
    ensures Table(TableBytes(offsets)) == offsets
    decreases |offsets|
  {
    if offsets != [] {
      var n := |offsets| - 1;
      TableOfBytes(offsets[..n]);
      TableAppend(TableBytes(offsets[..n]), offsets[n]);
      assert offsets[..n] + [offsets[n]] == offsets;
    }
  }

  lemma WholeEntries(n: nat, size: nat)
    requires size == 8 * n
    ensures size / 8 * 8 == size
  {
  }

  /** A message laid out in the receiver's mapped area, data and table where its transaction
      says, is the delivered message bio_init_from_txn makes of it. */
  lemma LaidOut(mapped: seq<byte>, t: Txn, bytes: seq<byte>, offsets: seq<u64>, ws: seq<Wire>)
    requires InRange(t, |mapped|) && t.dataSize == |bytes| && t.offsetsSize == 8 * |offsets|
    requires Spaced(offsets, |bytes|) && |ws| == |offsets|
    requires mapped[t.buffer..t.buffer + t.dataSize] == Rewrite(bytes, offsets, ws)
    requires mapped[t.offsets..t.offsets + t.offsetsSize] == TableBytes(offsets)
    ensures FromTxn(mapped, t) == Delivered(t.buffer, bytes, offsets, ws)
  {
    hide Table, TableBytes, Rewrite, Spaced, FromTxn;
    TableOfBytes(offsets);
    WholeTable(mapped, t);
  }

  lemma WholeTable(mapped: seq<byte>, t: Txn)
    requires InRange(t, |mapped|) && t.offsetsSize % 8 == 0
    ensures FromTxn(mapped, t) == In(t.buffer, 0, mapped[t.buffer..t.buffer + t.dataSize],
                                     Table(mapped[t.offsets..t.offsets + t.offsetsSize]), SHARED)
  {
    hide Table;
    WholeEntries(t.offsetsSize / 8, t.offsetsSize);
  }
}
