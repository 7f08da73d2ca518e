/** svcmgr_handler on values: one request decoded, applied to the registry and answered. */
module Manager {
  import opened Words
  import opened Writer
  import opened Reader
  import opened Commands
  import opened Parser
  import opened Registry
  import opened RegistryLaws

  const PING_TRANSACTION: u32 := 0x5f50_4e47
  const SVC_MGR_GET_SERVICE: u32 := 1
  const SVC_MGR_CHECK_SERVICE: u32 := 2
  const SVC_MGR_ADD_SERVICE: u32 := 3
  const SVC_MGR_LIST_SERVICES: u32 := 4

  /** "android.os.IServiceManager" */
  const MANAGER_ID: seq<byte> :=
    [97, 110, 100, 114, 111, 105, 100, 46, 111, 115, 46, 73, 83, 101, 114, 118, 105, 99, 101, 77, 97, 110, 97, 103,
     101, 114]

  function CallerOf(t: TxnSec): Caller {
    Caller(t.txn.senderEuid, t.txn.senderPid, t.secctx)
  }

  function Refuse(reg: seq<Record>, reply: Out): Handled<seq<Record>> {
    Handled(reg, [], reply, -1)
  }

  /** The request header: strict mode, work source, and the interface name, which must be the
      manager's. */
  function Header(msg: In): (In, bool) {
    var (m1, _) := GetUint32(msg);
    var (m2, _) := GetUint32(m1);
    var (m3, len, s) := GetString16(m2);
    (m3, s.Some? && len == |MANAGER_ID| && s.value[..|MANAGER_ID|] == Widen(MANAGER_ID))
  }

  function LookUp(pol: Policy, reg: seq<Record>, c: Caller, msg: In, reply: Out): Handled<seq<Record>> {
    var (_, len, s) := GetString16(msg);
    if s.None? then Refuse(reg, reply)
    else
      var h := FindService(pol, reg, s.value[..len], c);
      Handled(reg, [], if h == 0 then PutUint32(reply, 0) else PutRef(reply, h), 0)
  }

  /** The arguments of an add request, as decoded; the name is missing when its string is. */
  function AddRequest(c: Caller, msg: In): Option<AddArgs> {
    var (m1, len, s) := GetString16(msg);
    if s.None? then None
    else
      var (m2, h) := GetRef(m1);
      var (m3, a) := GetUint32(m2);
      var (m4, p) := GetUint32(m3);
      Some(AddArgs(s.value[..len], h, c, a != 0, p))
  }

  function Register(pol: Policy, reg: seq<Record>, c: Caller, msg: In, reply: Out): Handled<seq<Record>> {
    var a := AddRequest(c, msg);
    if a.None? then Refuse(reg, reply)
    else
      var r := Add(pol, reg, a.value);
      if r.status != 0 then Handled(r.reg, r.log, reply, -1)
      else Handled(r.reg, r.log, PutUint32(reply, 0), 0)
  }

  function List(pol: Policy, reg: seq<Record>, c: Caller, msg: In, reply: Out): Handled<seq<Record>> {
    var (m1, n) := GetUint32(msg);
    var (m2, req) := GetUint32(m1);
    if !(pol.mayList)(c) then Refuse(reg, reply)
    else
      var id := Walk(reg, n, req);
      if id.None? then Refuse(reg, reply)
      else Handled(reg, [], PutString16(reply, Some(AtId(reg, id.value).name + [0])), 0)
  }

  /** svcmgr_handler. */
  function Manage(pol: Policy, reg: seq<Record>, t: TxnSec, msg: In, reply: Out): Handled<seq<Record>> {
    if t.txn.target != 0 then Refuse(reg, reply)
    else if t.txn.code == PING_TRANSACTION then Handled(reg, [], reply, 0)
    else
      var (m, ok) := Header(msg);
      if !ok then Refuse(reg, reply)
      else if t.txn.code == SVC_MGR_GET_SERVICE || t.txn.code == SVC_MGR_CHECK_SERVICE then
        LookUp(pol, reg, CallerOf(t), m, reply)
      else if t.txn.code == SVC_MGR_ADD_SERVICE then Register(pol, reg, CallerOf(t), m, reply)
      else if t.txn.code == SVC_MGR_LIST_SERVICES then List(pol, reg, CallerOf(t), m, reply)
      else Refuse(reg, reply)
  }

  /** The manager's function pointers: its handler and svcinfo_death. */
  function ManagerHooks(pol: Policy, stack: nat -> StackBuffer): Hooks<seq<Record>> {
    Hooks(Some((reg, t, msg, reply) => Manage(pol, reg, t, msg, reply)), (reg, k) => Registry.Death(reg, k), stack)
  }

  /** The registration a transaction asks for, if it asks for one. */
  function Requested(t: TxnSec, msg: In): Option<AddArgs> {
    if t.txn.target == 0 && t.txn.code == SVC_MGR_ADD_SERVICE && Header(msg).1
    then AddRequest(CallerOf(t), Header(msg).0) else None
  }

  /** What any message whatever does to the registry: it is one accepted add or nothing, with
      the commands of that add and no other, and a refused message is always an error status. */
  lemma ManageIsEvent(pol: Policy, reg: seq<Record>, t: TxnSec, msg: In, reply: Out)
    ensures var h, a := Manage(pol, reg, t, msg, reply), Requested(t, msg);
            && (a.Some? ==> (h.world, h.log) == ApplyEvent(reg, AddEvent(pol, a.value))
                            && (h.status == 0 <==> Add(pol, reg, a.value).status == 0))
            && (a.None? ==> h.world == reg && h.log == [])
            && (h.status == 0 || h.status == -1)
  {
    hide Header, AddRequest, FindService, Walk, PutUint32, PutRef, PutString16, GetString16, GetUint32;
  }

  /** Who asks and what: with the manager's interface, codes 1 and 2 look a name up, 3 registers one
      and 4 lists, always on behalf of the sender that the driver stamped on the transaction, its
      effective user, its process and its security context. */
  lemma SenderAsks(pol: Policy, reg: seq<Record>, t: TxnSec, msg: In, reply: Out)
    requires t.txn.target == 0 && Header(msg).1
    ensures var c, m := Caller(t.txn.senderEuid, t.txn.senderPid, t.secctx), Header(msg).0;
            && (t.txn.code == 1 || t.txn.code == 2 ==> Manage(pol, reg, t, msg, reply) == LookUp(pol, reg, c, m, reply))
            && (t.txn.code == 3 ==> Manage(pol, reg, t, msg, reply) == Register(pol, reg, c, m, reply))
            && (t.txn.code == 4 ==> Manage(pol, reg, t, msg, reply) == List(pol, reg, c, m, reply))
            && (Requested(t, msg).Some? ==> t.txn.code == 3 && Requested(t, msg).value.caller == c)
  {
    hide Header, LookUp, Register, List, GetString16, GetRef, GetUint32;
  }

  /** Two policies that agree on a caller. */
  ghost predicate SameFor(pol: Policy, pol': Policy, c: Caller) {
    && (forall n :: (pol.mayAdd)(n, c) == (pol'.mayAdd)(n, c))
    && (forall n :: (pol.mayFind)(n, c) == (pol'.mayFind)(n, c))
    && (pol.mayList)(c) == (pol'.mayList)(c) && pol.memory == pol'.memory
  }

  /** Only the decisions about the sender count: a policy that decides differently for everybody
      else gives every message the same service. */
  lemma OnlySenderCounts(pol: Policy, pol': Policy, reg: seq<Record>, t: TxnSec, msg: In, reply: Out)
    requires SameFor(pol, pol', Caller(t.txn.senderEuid, t.txn.senderPid, t.secctx))
    ensures Manage(pol, reg, t, msg, reply) == Manage(pol', reg, t, msg, reply)
  {
    hide Header, GetString16, GetRef, GetUint32, PutUint32, PutRef, PutString16, Find, Overridden, Walk, AtId, Link;
  }

  /** A ping is answered with an empty reply, whatever its message; a transaction for another
      object, and a code the manager does not know, with an error status. Neither has any
      other effect. */
  lemma PingAnswered(pol: Policy, reg: seq<Record>, t: TxnSec, msg: In, stack: StackBuffer)
    ensures var h := Manage(pol, reg, t, msg, ReplyBuffer(stack));
            && (t.txn.target == 0 && t.txn.code == 0x5f50_4e47 ==>
                  h.world == reg && h.log == [] && ReplyOf(h) == SendReply(0, [], []))
            && (t.txn.target != 0 || !(t.txn.code == 0x5f50_4e47 || 1 <= t.txn.code <= 4) ==>
                  h.world == reg && h.log == [] && ReplyOf(h) == SendReply(8, [255, 255, 255, 255], []))
  {
    hide Header, LookUp, Register, List;
  }

  lemma EventIsQuiet(reg: seq<Record>, e: Event)
    ensures Quiet(ApplyEvent(reg, e).1)
  {
  }

  /** The manager never frees buffers or sends replies itself. */
  lemma ManagerIsQuiet(pol: Policy, stack: nat -> StackBuffer)
    ensures QuietHooks(ManagerHooks(pol, stack))
  {
    hide Manage, ApplyEvent, Requested, Quiet;
    var hooks := ManagerHooks(pol, stack);
    forall w, t, i, o ensures Quiet((hooks.func.value)(w, t, i, o).log) {
      ManageIsEvent(pol, w, t, i, o);
      if Requested(t, i).Some? {
        EventIsQuiet(w, AddEvent(pol, Requested(t, i).value));
      } else {
        NothingIsQuiet();
      }
    }
    forall w: seq<Record>, k ensures Quiet((hooks.death)(w, k).1) {
      DeathIsQuiet(w, k);
    }
  }

  lemma NothingIsQuiet()
    ensures Quiet([])
  {
  }

  lemma DeathIsQuiet(reg: seq<Record>, k: u64)
    ensures Quiet(Registry.Death(reg, k).1)
  {
  }

  /** The reply buffer of the parser: 224 bytes of data and four table entries. */
  function ReplyBuffer(stack: StackBuffer): Out {
    Fresh(stack, REPLY_SLOTS)
  }

  /** As a C string a record's name ends at its first NUL. */
  lemma CName(name: Name)
    ensures StrLen(name + [0]) <= |name|
    ensures StrLen(name + [0]) == |name| <==> 0 !in name
    ensures (name + [0])[..StrLen(name + [0])] == name[..StrLen(name + [0])]
  {
    hide StrLen;
    var s := name + [0];
    var len := StrLen(s);
    assert s[|name|] == 0 && s[..|name|] == name;
    if 0 !in name {
      StrLenUnique(s, |name|);
    } else {
      assert 0 !in s[..len] && 0 in s[..|name|];
    }
    assert s[..len] == name[..len];
  }

  /** The list reply of a name fits exactly up to 109 units; beyond, the reply buffer overflows,
      the handler reports success all the same, and the reply carries the length word alone. */
  lemma ListReply(stack: StackBuffer, units: seq<u16>)
    requires 1 <= |units| <= MAX_NAME + 1
    ensures var r := PutUnits(ReplyBuffer(stack), Some(units));
            && (r.flags.overflow <==> |units| > 110)
            && (|units| > 110 ==> r.bytes == Le32(|units| - 1))
  {
    hide UnitBytes, Le32;
    var o := ReplyBuffer(stack);
    PutUnitsEffect(o, Some(units));
    Align4Exact(2 * |units|);
    Align4Exact(4);
    if |units| > 110 {
      var q := PutUint32(o, |units| - 1);
      assert o.room[4..4] == [];
      assert q.bytes == Le32(|units| - 1);
    }
  }
}
