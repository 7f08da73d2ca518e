/** The service manager over its heap: svclist as a linked list of svcinfo objects updated in
    place. Its methods are proved to compute the functions of Registry and Manager. */
module ServiceManagerHeap {
  import opened Words
  import opened Writer
  import opened Reader
  import opened Commands
  import opened Parser
  import opened BinderIo
  import opened BinderLib
  import opened Registry
  import opened RegistryLaws
  import opened Manager

  /** struct svcinfo; addr stands for the address the driver hands back as a cookie. */
  class SvcInfo {
    var next: SvcInfo?
    var handle: u32
    const addr: u64
    const allowIsolated: bool
    const priority: u32
    const len: nat
    const name: seq<u16>

    constructor (s: seq<u16>, n: nat, h: u32, a: bool, p: u32, tail: SvcInfo?, at: u64)
      requires n <= |s|
      ensures next == tail && handle == h && addr == at && allowIsolated == a && priority == p
      ensures len == n && name == s[..n] + [0]
    {
      next, handle, addr, allowIsolated, priority := tail, h, at, a, p;
      len, name := n, s[..n] + [0];
    }

    /** The object holds the record r, with its name terminated. */
    predicate Holds(r: Record)
      reads this
    {
      len == |r.name| && name == r.name + [0]
      && handle == r.handle && allowIsolated == r.allowIsolated && priority == r.priority
    }
  }

  class ServiceManager {
    var svclist: SvcInfo?
    /** The allocator's next address. */
    var created: nat
    /** The list's objects and the records they hold, newest first. */
    ghost var spine: seq<SvcInfo>
    ghost var contents: seq<Record>

    /** The list runs through the spine and ends: it is finite and has no cycle. */
    ghost predicate Valid()
      reads this, spine
    {
      && svclist == At(0) && |spine| == |contents| == created <= TWO64
      && (forall i :: 0 <= i < |spine| ==> Node(i))
      && (forall i, j :: 0 <= i < j < |spine| ==> spine[i] != spine[j])
    }

    ghost function At(i: nat): SvcInfo?
      reads this
    {
      if i < |spine| then spine[i] else null
    }

    ghost predicate Node(i: nat)
      requires i < |spine| == |contents|
      reads this, spine
    {
      spine[i].Holds(contents[i]) && spine[i].next == At(i + 1) && spine[i].addr == |spine| - 1 - i
    }

    constructor ()
      ensures Valid() && contents == [] && spine == []
    {
      svclist, created, spine, contents := null, 0, [], [];
    }

    /** find_svc: a walk of the list comparing lengths and contents. */
    method FindSvc(s: seq<u16>, len: nat) returns (si: SvcInfo?, ghost index: nat)
      requires Valid() && len <= |s|
      ensures si == At(index) && (si != null ==> index < |spine|)
      ensures Find(contents, s[..len]) == if si == null then None else Some(|spine| - 1 - index)
      ensures var id := Find(contents, s[..len]);
              si == if id.Some? then spine[|spine| - 1 - id.value] else null
    {
      si := svclist;
      index := 0;
      while si != null
        invariant index <= |spine| && si == At(index)
        invariant Find(contents, s[..len]) == Find(contents[index..], s[..len])
        decreases |spine| - index
      {
        assert Node(index);
        assert si.name[..si.len] == contents[index].name;
        if len == si.len && s[..len] == si.name[..len] {
          return;
        }
        assert contents[index..][1..] == contents[index + 1..];
        si := si.next;
        index := index + 1;
      }
    }

    method SetHandleOf(si: SvcInfo, handle: u32, ghost index: nat)
      requires Valid() && index < |spine| && si == spine[index]
      modifies si`handle, this`contents
      ensures Valid() && contents == SetHandle(old(contents), |spine| - 1 - index, handle)
    {
      ghost var before := contents;
      contents := SetHandle(contents, |spine| - 1 - index, handle);
      si.handle := handle;
      assert before[index] == AtId(before, |spine| - 1 - index);
      forall i | 0 <= i < |spine| ensures Node(i) {
        assert old(Node(i));
      }
    }

    /** svcinfo_death. */
    method SvcInfoDeath<S>(bs: Binder<S>, si: SvcInfo, ghost index: nat)
      requires Valid() && index < |spine| && si == spine[index]
      modifies si`handle, this`contents, bs`log
      ensures Valid()
      ensures var (r, l) := Registry.Death(old(contents), si.addr);
              contents == r && bs.log == old(bs.log) + l
    {
      hide Valid;
      HeldHere(si, index);
      if si.handle != 0 {
        bs.Release(si.handle);
        SetHandleOf(si, 0, index);
      }
    }

    lemma HeldHere(si: SvcInfo, index: nat)
      requires Valid() && index < |spine| && si == spine[index]
      ensures |spine| == |contents| <= TWO64 && si.addr == |spine| - 1 - index == Cookie(|spine| - 1 - index)
      ensures si.Holds(AtId(contents, |spine| - 1 - index))
    {
      assert Node(index);
      CookieIsId(|spine| - 1 - index);
    }

    method DoFindService(s: seq<u16>, len: nat, c: Caller, pol: Policy) returns (handle: u32)
      requires Valid() && len <= |s|
      ensures handle == FindService(pol, contents, s[..len], c)
    {
      var si, index := FindSvc(s, len);
      if si == null {
        return 0;
      }
      HeldHere(si, index);
      if si.handle == 0 {
        return 0;
      }
      if !si.allowIsolated {
        var appid := c.uid % AID_USER;
        if appid >= AID_ISOLATED_START && appid <= AID_ISOLATED_END {
          return 0;
        }
      }
      if !pol.mayFind(s[..len], c) {
        return 0;
      }
      return si.handle;
    }

    /** do_add_service. The old list stays a suffix of the new one, object for object. */
    method DoAddService<S>(bs: Binder<S>, s: seq<u16>, len: nat, handle: u32, c: Caller,
                           allowIsolated: bool, priority: u32, pol: Policy) returns (status: int)
      requires Valid() && len <= |s|
      modifies this, spine, bs`log
      ensures Valid() && Kept(old(spine), spine)
      ensures forall x | x in spine :: x in old(spine) || fresh(x)
      ensures var r := Add(pol, old(contents), AddArgs(s[..len], handle, c, allowIsolated, priority));
              status == r.status && contents == r.reg && bs.log == old(bs.log) + r.log
    {
      hide Valid, Cookie, Registry.Death, SetHandle, Link, Overridden, Find;
      Sized();
      if handle == 0 || len == 0 || len > MAX_NAME {
        return -1;
      }
      if !CanRegister(pol, s[..len], c) {
        return -1;
      }
      var si, index := FindSvc(s, len);
      if si != null {
        Override(bs, si, handle, index);
      } else {
        if !pol.memory || created >= TWO64 {
          return -1;
        }
        si := NewSvc(s, len, handle, allowIsolated, priority);
        Reference(bs, handle, si.addr);
      }
      return 0;
    }

    static ghost predicate Kept(before: seq<SvcInfo>, after: seq<SvcInfo>) {
      |before| <= |after| && after[|after| - |before|..] == before
    }

    lemma Sized()
      requires Valid()
      ensures created == |contents| == |spine|
    {
    }

    /** The references both paths of do_add_service take on the new handle. */
    method Reference<S>(bs: Binder<S>, handle: u32, addr: u64)
      modifies bs`log
      ensures bs.log == old(bs.log) + Link(addr, handle)
    {
      bs.Acquire(handle);
      bs.LinkToDeath(handle, addr);
    }

    /** An existing record takes the new handle, after giving up a live old one. */
    method Override<S>(bs: Binder<S>, si: SvcInfo, handle: u32, ghost index: nat)
      requires Valid() && index < |spine| && si == spine[index]
      modifies si`handle, this`contents, bs`log
      ensures Valid() && |spine| == |old(contents)|
      ensures var r := Overridden(old(contents), |spine| - 1 - index, handle);
              contents == r.0 && bs.log == old(bs.log) + r.1
    {
      hide Valid, Cookie, Registry.Death, SetHandle, Link;
      HeldHere(si, index);
      if si.handle != 0 {
        SvcInfoDeath(bs, si, index);
      }
      Sized();
      SetHandleOf(si, handle, index);
      Reference(bs, handle, si.addr);
    }

    /** The new record goes to the head of the list. */
    method NewSvc(s: seq<u16>, len: nat, handle: u32, allowIsolated: bool, priority: u32) returns (si: SvcInfo)
      requires Valid() && created < TWO64 && len <= |s|
      modifies this
      ensures Valid() && fresh(si) && spine == [si] + old(spine) && si.addr == |old(spine)|
      ensures contents == [Record(s[..len], handle, allowIsolated, priority)] + old(contents)
    {
      ghost var was := spine;
      si := new SvcInfo(s, len, handle, allowIsolated, priority, svclist, created);
      svclist := si;
      created := created + 1;
      spine := [si] + spine;
      contents := [Record(s[..len], handle, allowIsolated, priority)] + contents;
      forall i | 0 <= i < |spine| ensures Node(i) && (i > 0 ==> spine[i] == was[i - 1]) {
        if i > 0 {
          assert spine[i] == was[i - 1];
          assert old(Node(i - 1));
        }
      }
    }

    /** The walk of SVC_MGR_LIST_SERVICES. */
    method WalkList(n0: u32, req: u32) returns (si: SvcInfo?, ghost index: nat)
      requires Valid()
      ensures si == At(index) && (si != null ==> index < |spine|)
      ensures Walk(contents, n0, req) == if si == null then None else Some(|spine| - 1 - index)
      ensures var id := Walk(contents, n0, req);
              si == if id.Some? then spine[|spine| - 1 - id.value] else null
    {
      var n := n0;
      si := svclist;
      index := 0;
      while si != null
        invariant index <= |spine| && si == At(index)
        invariant Walk(contents, n0, req) == Walk(contents[index..], n, req)
        decreases |spine| - index
      {
        assert Node(index);
        if SharesBit(si.priority, req) {
          if n == 0 {
            break;
          }
          n := n - 1;
        }
        assert contents[index..][1..] == contents[index + 1..];
        si := si.next;
        index := index + 1;
      }
    }

    /** bio_get_string16, and the units behind the pointer it returns. */
    method TakeString(msg: Bio) returns (s: Option<seq<u16>>, len: u32)
      requires msg.ValidIn()
      modifies msg`data, msg`dataAvail, msg`flags
      ensures msg.ValidIn() && (msg.Received(), len, s) == Reader.GetString16(old(msg.Received()))
    {
      hide Bio.Received, Reader.GetString16, Units;
      var ptr;
      ptr, len := msg.GetString16();
      s := if ptr.None? then None else Some(Units(msg.mem[..][ptr.value..ptr.value + (len as int + 1) * 2]));
    }

    /** The request header: two ignored words and the interface name. */
    method CheckHeader(msg: Bio) returns (ok: bool)
      requires msg.ValidIn()
      modifies msg`data, msg`dataAvail, msg`flags
      ensures msg.ValidIn() && (msg.Received(), ok) == Header(old(msg.Received()))
    {
      hide Bio.Received, Reader.GetUint32, Reader.GetString16, Widen;
      var strict := msg.GetUint32();
      var worksource := msg.GetUint32();
      var s, len := TakeString(msg);
      if s.None? {
        return false;
      }
      if len != |MANAGER_ID| || s.value[..|MANAGER_ID|] != Widen(MANAGER_ID) {
        return false;
      }
      return true;
    }

    method LookUpRequest(pol: Policy, c: Caller, msg: Bio, reply: Bio) returns (status: int)
      requires Valid() && msg.ValidIn() && reply.ValidOut() && msg != reply && msg.mem != reply.mem
      modifies msg`data, msg`dataAvail, msg`flags, reply, reply.mem
      ensures Valid()
      ensures var h := LookUp(pol, contents, c, old(msg.Received()), old(reply.Written()));
              && contents == old(contents) == h.world && h.log == []
              && status == h.status && reply.ValidOut() && reply.Written() == h.reply
    {
      hide Bio.Received, Bio.Written, Reader.GetString16, Writer.PutUint32, Writer.PutRef, FindService;
      var s, len := TakeString(msg);
      if s.None? {
        return -1;
      }
      var handle := DoFindService(s.value, len, c, pol);
      if handle == 0 {
        reply.PutUint32(0);
      } else {
        reply.PutRef(handle);
      }
      return 0;
    }

    method AddServiceRequest<S>(bs: Binder<S>, pol: Policy, c: Caller, msg: Bio, reply: Bio) returns (status: int)
      requires Valid() && msg.ValidIn() && reply.ValidOut() && msg != reply && msg.mem != reply.mem
      modifies this, spine, bs`log, msg`data, msg`dataAvail, msg`flags, reply, reply.mem
      ensures Valid() && Kept(old(spine), spine)
      ensures forall x | x in spine :: x in old(spine) || fresh(x)
      ensures var h := Register(pol, old(contents), c, old(msg.Received()), old(reply.Written()));
              && status == h.status && contents == h.world && bs.log == old(bs.log) + h.log
              && reply.ValidOut() && reply.Written() == h.reply
    {
      hide Bio.Received, Bio.Written, Reader.GetString16, Reader.GetRef, Reader.GetUint32, Writer.PutUint32;
      hide Add, Valid;
      var s, len := TakeString(msg);
      if s.None? {
        return -1;
      }
      var handle := msg.GetRef();
      var isolated := msg.GetUint32();
      var priority := msg.GetUint32();
      var r := DoAddService(bs, s.value, len, handle, c, isolated != 0, priority, pol);
      if r != 0 {
        return -1;
      }
      reply.PutUint32(0);
      return 0;
    }

    method ListRequest(pol: Policy, c: Caller, msg: Bio, reply: Bio) returns (status: int)
      requires Valid() && msg.ValidIn() && reply.ValidOut() && msg != reply && msg.mem != reply.mem
      modifies msg`data, msg`dataAvail, msg`flags, reply, reply.mem
      ensures Valid()
      ensures var h := List(pol, contents, c, old(msg.Received()), old(reply.Written()));
              && contents == old(contents) == h.world && h.log == []
              && status == h.status && reply.ValidOut() && reply.Written() == h.reply
    {
      hide Bio.Received, Bio.Written, Reader.GetUint32, Writer.PutString16, Walk;
      var n := msg.GetUint32();
      var req := msg.GetUint32();
      if !pol.mayList(c) {
        return -1;
      }
      var si, index := WalkList(n, req);
      if si == null {
        return -1;
      }
      HeldHere(si, index);
      reply.PutString16(Some(si.name));
      return 0;
    }

    /** svcmgr_handler. */
    method Handler<S>(bs: Binder<S>, pol: Policy, t: TxnSec, msg: Bio, reply: Bio) returns (status: int)
      requires Valid() && msg.ValidIn() && reply.ValidOut() && msg != reply && msg.mem != reply.mem
      modifies this, spine, bs`log, msg`data, msg`dataAvail, msg`flags, reply, reply.mem
      ensures Valid() && Kept(old(spine), spine)
      ensures var h := Manage(pol, old(contents), t, old(msg.Received()), old(reply.Written()));
              && status == h.status && contents == h.world && bs.log == old(bs.log) + h.log
              && reply.ValidOut() && reply.Written() == h.reply
    {
      hide Bio.Received, Bio.Written, Header, LookUp, Register, List, Valid;
      if t.txn.target != 0 {
        return -1;
      }
      if t.txn.code == PING_TRANSACTION {
        return 0;
      }
      var ok := CheckHeader(msg);
      if !ok {
        return -1;
      }
      if t.txn.code == SVC_MGR_GET_SERVICE || t.txn.code == SVC_MGR_CHECK_SERVICE {
        status := LookUpRequest(pol, CallerOf(t), msg, reply);
      } else if t.txn.code == SVC_MGR_ADD_SERVICE {
        status := AddServiceRequest(bs, pol, CallerOf(t), msg, reply);
      } else if t.txn.code == SVC_MGR_LIST_SERVICES {
        status := ListRequest(pol, CallerOf(t), msg, reply);
      } else {
        status := -1;
      }
    }

    /** What the parser does with a transaction: both binder_io objects are made, the handler
        runs on them, and the buffer is freed, with a reply unless the call is one-way. */
    method ServeTransaction<S>(bs: Binder<S>, pol: Policy, t: TxnSec)
      requires Valid() && InRange(t.txn, bs.mapped.Length)
      modifies this, spine, bs`log
      ensures Valid() && Kept(old(spine), spine)
      ensures var h := Manage(pol, old(contents), t, FromTxn(bs.mapped[..], t.txn),
                              ReplyBuffer(bs.stack(|old(bs.log)|)));
              contents == h.world && bs.log == old(bs.log) + ServiceLog(t.txn, h)
    {
      hide Bio.Received, Bio.Written, Manage, Valid, FromTxn, ReplyBuffer, Commands.Written;
      var reply := NewReply(bs.stack(|bs.log|));
      var msg := NewMessage(bs.mapped, t.txn);
      StatusRange(pol, contents, t, msg.Received(), reply.Written());
      var res := Handler(bs, pol, t, msg, reply);
      if OneWay(t.txn) {
        bs.FreeBuffer(t.txn.buffer);
      } else {
        bs.SendReply(reply, t.txn.buffer, res);
      }
    }

    /** The reply buffer on the stack, with whatever it holds, and the binder_io over it. */
    method NewReply(garbage: StackBuffer) returns (reply: Bio)
      ensures fresh(reply) && fresh(reply.mem) && reply.ValidOut() && reply.Written() == ReplyBuffer(garbage)
    {
      hide Bio.Written, Fresh;
      var rdata := new byte[REPLY_SIZE];
      forall k | 0 <= k < REPLY_SIZE { rdata[k] := garbage[k]; }
      assert rdata[..REPLY_SIZE] == garbage;
      reply := new Bio(rdata);
      reply.Init(rdata, REPLY_SIZE, REPLY_SLOTS);
    }

    method NewMessage(mapped: array<byte>, t: Txn) returns (msg: Bio)
      requires InRange(t, mapped.Length)
      ensures fresh(msg) && msg.mem == mapped && msg.ValidIn() && msg.Received() == FromTxn(mapped[..], t)
    {
      hide Bio.Received, FromBuffer;
      msg := new Bio(mapped);
      msg.InitFromTxn(mapped, t.buffer, t.dataSize, t.offsets, t.offsetsSize);
    }

    lemma StatusRange(pol: Policy, reg: seq<Record>, t: TxnSec, msg: In, reply: Out)
      ensures -1 <= Manage(pol, reg, t, msg, reply).status <= 0
    {
      ManageIsEvent(pol, reg, t, msg, reply);
    }
  }
}
