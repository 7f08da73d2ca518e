/** The protocols get through: in every reachable state the requests of both clients are taken
    and served, and a service just published is found. */
module Progress {
  import opened Words
  import opened Writer
  import opened Reader
  import opened Delivery
  import opened Commands
  import opened Parser
  import opened Registry
  import opened Manager
  import opened Clients
  import opened WireProtocol
  import opened Driver
  import opened System
  import opened EndToEnd

  /** The driver's pick of a handle process v does not use. */
  predicate Free(v: View, pick: u32) {
    pick != 0 && pick !in v.node
  }

  predicate Asks(sec: TxnSec, code: u32) {
    sec.txn.target == 0 && sec.txn.code == code && sec.txn.flags % 2 == 0
  }

  /** A publish whose message is sent is delivered in every reachable state, and can then be
      served, whatever else waits. */
  lemma PublishServed(s: Sys, sender: nat, from: View, iodata: MessageBuffer, name: seq<byte>, ptr: u64,
                      sec: TxnSec, pick: u32) returns (r: Req)
    requires SysInv(s) && PlainName(name) && PublishFits(name) && Asks(sec, 3)
    requires Free(s.mgr, pick) && sec.txn.buffer !in s.mgr.pins
    ensures r.sender == sender && r.sec == sec && IsPublish(r, iodata, name, ptr)
    ensures Receive(s, r).Some? && SysInv(Receive(s, r).value)
    ensures forall pol, stack :: Serve(Receive(s, r).value, |s.queue|, pol, stack).Completed?
  {
    hide SysInv, Request, PublishOps, Deliver, Serve, Storable, CString;
    NameString(name);
    OpsValid(NameArg(name), ptr);
    var f := Request(iodata, PublishOps(NameArg(name), ptr));
    r := Req(sender, from, f.bytes, f.offsets, [pick], sec);
    PublishTaken(s, r, iodata, name, ptr);
    ReceiveSafe(s, r);
    forall pol, stack ensures Serve(Receive(s, r).value, |s.queue|, pol, stack).Completed? {
      RequestSafe(Receive(s, r).value, |s.queue|, pol, stack);
    }
  }

  lemma PublishTaken(s: Sys, r: Req, iodata: MessageBuffer, name: seq<byte>, ptr: u64)
    requires SysInv(s) && PlainName(name) && PublishFits(name) && IsPublish(r, iodata, name, ptr)
    requires |r.picks| == 1 && Free(s.mgr, r.picks[0]) && r.sec.txn.buffer !in s.mgr.pins
    ensures Receive(s, r).Some?
  {
    hide SysInv, AsksPublish, Receive;
    NameString(name);
    DriverTakesPublish(s, r, iodata, NameArg(name), ptr);
  }

  /** A message without objects is delivered whenever its buffer is not in use. */
  lemma PlainDelivered(sender: nat, from: View, to: nat, v: View, bytes: seq<byte>, buffer: u64)
    requires buffer !in v.pins
    ensures Deliver(sender, from, to, v, bytes, [], [], buffer).Some?
  {
    assert MessageWires(bytes, []).Some? && MessageWires(bytes, []).value == [];
    assert Translate(sender, from, to, v, [], []) == Some(Translated(v, [], []));
  }

  /** A lookup whose message is sent is delivered in every reachable state, and can then be
      served. */
  lemma LookupTaken(s: Sys, sender: nat, from: View, iodata: MessageBuffer, name: seq<byte>, sec: TxnSec)
    returns (r: Req)
    requires SysInv(s) && PlainName(name) && LookupFits(name) && Asks(sec, 2)
             && sec.txn.buffer !in s.mgr.pins
    ensures r.sec == sec && IsLookup(r, iodata, name)
    ensures Receive(s, r).Some? && SysInv(Receive(s, r).value) && Receive(s, r).value.reg == s.reg
    ensures forall pol, stack :: Serve(Receive(s, r).value, |s.queue|, pol, stack).Completed?
  {
    hide Request, LookupOps, Serve, Deliver, SysInv, Storable, CString;
    LookupBytes(iodata, name);
    NameString(name);
    OpsValid(NameArg(name), 0);
    var f := Request(iodata, LookupOps(NameArg(name)));
    r := Req(sender, from, f.bytes, [], [], sec);
    PlainDelivered(sender, from, MANAGER, s.mgr, f.bytes, sec.txn.buffer);
    ReceiveSafe(s, r);
    forall pol, stack ensures Serve(Receive(s, r).value, |s.queue|, pol, stack).Completed? {
      RequestSafe(Receive(s, r).value, |s.queue|, pol, stack);
    }
  }

  lemma LookupBytes(iodata: MessageBuffer, name: seq<byte>)
    requires PlainName(name) && LookupFits(name)
    ensures CString(NameArg(name)) && ValidOps(LookupOps(NameArg(name)))
    ensures Request(iodata, LookupOps(NameArg(name))).offsets == []
  {
    LookupDecoded(iodata, name, 0);
  }

  /** The manager's reply to a lookup reaches every client with a free buffer and handle. */
  lemma ReplyTaken(s: Sys, h0: u32, stack: StackBuffer, q: nat, cv: View, pick: u32, buffer: u64)
    requires SysInv(s) && h0 != 0 && h0 in s.mgr.node && ValidView(cv) && buffer !in cv.pins && Free(cv, pick)
    ensures var r := PutRef(ReplyBuffer(stack), h0);
            Deliver(MANAGER, s.mgr, q, cv, r.bytes, r.offsets, [pick], buffer).Some?
  {
    hide PutRef, ReplyBuffer, Delivered, MessageWires, WireAt, SysInv, GetRef;
    var r := PutRef(ReplyBuffer(stack), h0);
    RefReply(stack, h0, Binder(0), buffer);
    OneWire(r.bytes, r.offsets, Handle(h0));
    OneTranslated(MANAGER, s.mgr, q, cv, Handle(h0), pick);
  }

  lemma OneTranslated(sender: nat, from: View, to: nat, v: View, w: Wire, pick: u32)
    requires NodeOf(sender, from, w).Some? && ValidView(v) && Free(v, pick)
    ensures Translate(sender, from, to, v, [w], [pick]).Some?
    ensures |Translate(sender, from, to, v, [w], [pick]).value.wires| == 1
  {
    var n := NodeOf(sender, from, w).value;
    var b := Bind(v, to, n, pick);
    if HandleFor(v, n).Some? {
      assert HandleFor(v, n).value in v.refs.Keys;
    }
    assert b.Some?;
    assert [w][1..] == [] && [pick][1..] == [];
    assert Translate(sender, from, to, b.value.view, [], []) == Some(Translated(b.value.view, [], []));
  }

  /** The state once a request has been delivered and served. */
  ghost function After(s: Sys, r: Req, pol: Policy, stack: StackBuffer): Outcome
    requires Receive(s, r).Some?
  {
    Serve(Receive(s, r).value, |s.queue|, pol, stack)
  }

  /** A service just published is found: in every reachable state of the manager with room for
      a record, whatever else waits, a permitted publish of any name of 1 to 127 characters,
      followed by a permitted lookup from another process, gives that process a handle of the
      very object published. */
  lemma PublishedIsFound(s: Sys, sender: nat, from: View, iodata: MessageBuffer, name: seq<byte>, ptr: u64,
                         sec: TxnSec, pick: u32, pol: Policy, stack: StackBuffer,
                         q: nat, cv: View, iodata': MessageBuffer, sec': TxnSec, pol': Policy, stack': StackBuffer,
                         pick': u32, buffer: u64) returns (r: Req, r': Req)
    requires SysInv(s) && |s.reg| < TWO64 && PlainName(name) && 1 <= |name| <= 127
    requires sender != MANAGER && q != sender && Asks(sec, 3) && Asks(sec', 2)
    requires pol.memory && sec.txn.senderEuid % 100000 < 10000
             && (pol.mayAdd)(Widen(name), Caller(sec.txn.senderEuid, sec.txn.senderPid, sec.secctx))
    requires !(99000 <= sec'.txn.senderEuid % 100000 <= 99999)
             && (pol'.mayFind)(Widen(name), Caller(sec'.txn.senderEuid, sec'.txn.senderPid, sec'.secctx))
    requires sec.txn.buffer !in s.mgr.pins && sec'.txn.buffer !in s.mgr.pins
    requires ValidView(cv) && buffer !in cv.pins && Free(s.mgr, pick) && Free(cv, pick')
    ensures r.sec == sec && IsPublish(r, iodata, name, ptr) && Receive(s, r).Some? && After(s, r, pol, stack).Completed?
    ensures var s1 := After(s, r, pol, stack).sys;
            && r'.sec == sec' && IsLookup(r', iodata', name) && Receive(s1, r').Some?
            && After(s1, r', pol', stack').Completed?
            && var o := After(s1, r', pol', stack');
            && Answered(o)
            && var p := ReplyArrival(o.sys, Reply(o), q, cv, [pick'], buffer);
            && p.Some?
            && var h := GetRef(p.value.msg).1;
            && h != 0 && Taken(cv, p.value.view, LookupLog(p.value.msg), h)
            && Denotes(ExecAll(p.value.view, LookupLog(p.value.msg)).value, h, Node(sender, ptr))
  {
    hide SysInv, Serve, IsPublish, IsLookup, GetRef, Deliver, ExecAll, Taken;
    hide ValidView, LookupLog, LiveNode, ReplyArrival, PutRef, PutUint32;
    r := PublishServed(s, sender, from, iodata, name, ptr, sec, pick);
    var t := Receive(s, r).value;
    PublishEndToEnd(t, |s.queue|, iodata, name, ptr, pol, stack, 0, []);
    RequestSafe(t, |s.queue|, pol, stack);
    var s1 := Serve(t, |s.queue|, pol, stack).sys;
    BufferGone(s, r, pol, stack, sec'.txn.buffer);
    r' := LookupTaken(s1, q, cv, iodata', name, sec');
    var u := Receive(s1, r').value;
    LiveAfterDelivery(s1, r', Widen(name));
    LookupServed(u, |s1.queue|, iodata', name, pol', stack');
    var o := Serve(u, |s1.queue|, pol', stack');
    FoundHandle(u, Widen(name), sec', pol');
    MayFindPlain(u, Widen(name), sec', pol');
    FoundHandle(o.sys, Widen(name), sec', pol');
    var h0 := FindService(pol', u.reg, Widen(name), CallerOf(sec'));
    ReplyTaken(o.sys, h0, stack', q, cv, pick', buffer);
    ArrivesAsDelivered(o.sys, Reply(o), q, cv, [pick'], buffer);
    LookupEndToEnd(u, |s1.queue|, iodata', name, pol', stack', q, cv, [pick'], buffer);
  }

  lemma ArrivesAsDelivered(s: Sys, reply: Bc, q: nat, cv: View, picks: seq<u32>, buffer: u64)
    requires reply.SendReply?
    ensures ReplyArrival(s, reply, q, cv, picks, buffer)
            == Deliver(MANAGER, s.mgr, q, cv, reply.bytes, reply.offsets, picks, buffer)
  {
    hide Deliver;
  }

  lemma MayFindPlain(s: Sys, name: Name, t: TxnSec, pol: Policy)
    requires SysInv(s) && LiveNode(s, name).Some? && !(99000 <= t.txn.senderEuid % 100000 <= 99999)
    requires (pol.mayFind)(name, Caller(t.txn.senderEuid, t.txn.senderPid, t.secctx))
    ensures MayFind(s, name, t, pol)
  {
  }

  /** A buffer that was free stays free once the request is served. */
  lemma BufferGone(s: Sys, r: Req, pol: Policy, stack: StackBuffer, b: u64)
    requires SysInv(s) && Receive(s, r).Some? && After(s, r, pol, stack).Completed?
             && SysInv(After(s, r, pol, stack).sys)
    ensures b in After(s, r, pol, stack).sys.mgr.pins ==> b in s.mgr.pins
  {
    hide Serve, Deliver, SysInv;
    var t := Receive(s, r).value;
    var u := After(s, r, pol, stack).sys;
    KeepsQueue(t, |s.queue|, pol, stack);
    assert t.queue[..|s.queue|] == s.queue && t.queue[|s.queue| + 1..] == [];
    assert u.queue == s.queue;
    hide Receive, After;
    OutstandingHere(s);
    OutstandingHere(u);
    SameBuffers(s.queue, s.mgr, u.mgr, b);
  }

  lemma OutstandingHere(s: Sys)
    requires SysInv(s)
    ensures Outstanding(s.queue, s.mgr)
  {
  }

  lemma SameBuffers(queue: seq<Queued>, v: View, w: View, b: u64)
    requires Outstanding(queue, v) && Outstanding(queue, w)
    ensures b in w.pins ==> b in v.pins
  {
    if b in w.pins {
      assert Waits(queue, b);
    }
  }

  lemma KeepsQueue(s: Sys, i: nat, pol: Policy, stack: StackBuffer)
    requires i < |s.queue| && Serve(s, i, pol, stack).Completed?
    ensures Serve(s, i, pol, stack).sys.queue == Without(s.queue, i)
  {
    hide Manage, ExecAll, Requested, ServiceLog;
  }

  lemma LiveAfterDelivery(s: Sys, r: Req, name: Name)
    requires |s.owners| == |s.reg| && Receive(s, r).Some?
    ensures LiveNode(Receive(s, r).value, name) == LiveNode(s, name)
  {
    hide Deliver;
  }
}
