/** The service manager, its driver and its clients together. Every request whatever is served
    without a single bad reference, every live record keeps denoting the object registered in
    it, and the client protocols mean what they say, through the bytes on the wire. */
module System {
  import opened Words
  import opened Writer
  import opened Reader
  import opened Delivery
  import opened Commands
  import opened Parser
  import opened Registry
  import opened RegistryLaws
  import opened Manager
  import opened Driver

  /** A transaction sent to the manager: the sender, its view of the driver when it sent, its
      message, the driver's picks of free handles, and the transaction as the manager reads it. */
  datatype Req = Req(sender: nat, from: View, bytes: seq<byte>, offsets: seq<nat>, picks: seq<u32>, sec: TxnSec)

  /** A transaction the driver has delivered into a buffer of the manager, which has not been
      served yet: the message in the buffer, its objects as delivered, and the handles it pins. */
  datatype Queued = Queued(r: Req, msg: In, wires: seq<Wire>, pinned: seq<u32>)

  function Buffer(q: Queued): u64 {
    q.r.sec.txn.buffer
  }

  /** The manager's registry, the driver's view of the manager, the object each record was last
      registered for (by id), the history: the registry events so far and the objects the
      registrations were for, and the transactions that wait. */
  datatype Sys = Sys(reg: seq<Record>, mgr: View, owners: seq<Node>, es: seq<Event>, origin: seq<Node>,
                     queue: seq<Queued>)

  /** The start, under a driver of either kind. */
  function Initial(single: bool): Sys {
    Sys([], EmptyView(single), [], [], [], [])
  }

  function AllPins(queue: seq<Queued>): seq<u32> {
    if queue == [] then [] else queue[0].pinned + AllPins(queue[1..])
  }

  function Without(queue: seq<Queued>, i: nat): (r: seq<Queued>)
    requires i < |queue|
    ensures |r| == |queue| - 1
  {
    queue[..i] + queue[i + 1..]
  }

  /** The driver's buffers for the manager are those of the transactions that wait. */
  ghost predicate Outstanding(queue: seq<Queued>, v: View) {
    && (forall k :: 0 <= k < |queue| ==> Buffer(queue[k]) in v.pins && v.pins[Buffer(queue[k])] == queue[k].pinned)
    && (forall j, k :: 0 <= j < k < |queue| ==> Buffer(queue[j]) != Buffer(queue[k]))
    && (forall b | b in v.pins :: Waits(queue, b))
  }

  ghost predicate Waits(queue: seq<Queued>, b: u64) {
    exists k :: 0 <= k < |queue| && Buffer(queue[k]) == b
  }

  /** A waiting message is still what its sender sent, object for object, under handles that
      still mean those objects. */
  ghost predicate Genuine(q: Queued, v: View) {
    var ws := MessageWires(q.r.bytes, q.r.offsets);
    && ws.Some? && |q.wires| == |q.r.offsets|
    && q.msg == Delivered(Buffer(q), q.r.bytes, q.r.offsets, q.wires)
    && forall k :: 0 <= k < |ws.value| ==> Meant(q.r.sender, q.r.from, MANAGER, ws.value[k], q.wires[k], v, q.pinned)
  }

  ghost predicate AllGenuine(queue: seq<Queued>, v: View) {
    forall k :: 0 <= k < |queue| ==> Genuine(queue[k], v)
  }

  /** References balance: the manager's count on every handle is the number of records that hold
      it, plus what the outstanding buffers pin. */
  ghost predicate Balanced(reg: seq<Record>, v: View, pinned: seq<u32>) {
    forall h: u32 :: h != 0 ==> RefCount(v, h) == Holders(reg, h) + Count(pinned, h)
  }

  /** Every live record's handle still means the object it was registered for. */
  ghost predicate Faithful(reg: seq<Record>, owners: seq<Node>, v: View) {
    && |owners| == |reg|
    && forall k :: 0 <= k < |reg| && AtId(reg, k).handle != 0 ==> Denotes(v, AtId(reg, k).handle, owners[k])
  }

  ghost predicate Denotes(v: View, h: u32, n: Node) {
    h in v.node && v.node[h] == n
  }

  ghost predicate OwnersByHistory(s: Sys) {
    && |s.origin| == |s.es| && |s.owners| == |s.reg|
    && forall name: Name, last: nat :: Last(s.es, last, name) ==>
         Find(s.reg, name).Some? && s.owners[Find(s.reg, name).value] == s.origin[last]
  }

  ghost predicate SysInv(s: Sys) {
    && s.reg == RegAfter(s.es)
    && ValidView(s.mgr)
    && Outstanding(s.queue, s.mgr) && AllGenuine(s.queue, s.mgr)
    && Balanced(s.reg, s.mgr, AllPins(s.queue)) && Count(AllPins(s.queue), 0) == 0
    && Faithful(s.reg, s.owners, s.mgr)
    && OwnersByHistory(s)
    && (forall h | h in s.mgr.node :: s.mgr.node[h].owner != MANAGER)
  }

  /** The object a name is registered for, while its record is live. */
  ghost function LiveNode(s: Sys, name: Name): Option<Node>
    requires |s.owners| == |s.reg|
  {
    var id := Find(s.reg, name);
    if id.Some? && AtId(s.reg, id.value).handle != 0 then Some(s.owners[id.value]) else None
  }

  // ---------------------------------------------------------------------------------------
  // Executing the manager's commands
  // ---------------------------------------------------------------------------------------

  predicate RefCommand(c: Bc) {
    c.Acquire? || c.Release? || c.RequestDeath?
  }

  /** Reference commands that all succeed change each count by their net. */
  lemma {:induction false} ExecNet(v: View, log: seq<Bc>)
    requires ValidView(v) && (forall c | c in log :: RefCommand(c)) && ExecAll(v, log).Some?
    ensures var w := ExecAll(v, log).value;
            && ValidView(w) && Submap(w.node, v.node) && w.pins == v.pins && w.single == v.single
            && forall h: u32 :: RefCount(w, h) == RefCount(v, h) + Net(log, h)
    decreases |log|
  {
    if log != [] {
      var c := log[0];
      assert c in log;
      var u := Exec(v, c).value;
      RefExec(v, c);
      hide Exec;
      ExecNet(u, log[1..]);
      SubmapTransitive(ExecAll(v, log).value.node, u.node, v.node);
      forall h: u32 ensures Net(log, h) == Net([c], h) + Net(log[1..], h) {
        NetConcat([c], log[1..], h);
        assert [c] + log[1..] == log;
      }
    }
  }

  lemma RefExec(v: View, c: Bc)
    requires ValidView(v) && RefCommand(c) && Exec(v, c).Some?
    ensures var u := Exec(v, c).value;
            && ValidView(u) && Submap(u.node, v.node) && u.pins == v.pins && u.single == v.single
            && forall h: u32 :: RefCount(u, h) == RefCount(v, h) + Net([c], h)
  {
    match c {
      case Acquire(h) => RaiseEffect(v, h);
      case Release(h) => DropEffect(v, h);
      case RequestDeath(h, k) => HoldEffect(v, h, k);
    }
    hide Raise, Drop, Hold;
    forall h: u32 ensures Net([c], h) == One(c == Acquire(h)) - One(c == Release(h)) {
      NetPair(c, c, h);
    }
  }

  lemma {:induction false} HolderCounted(reg: seq<Record>, id: nat)
    requires id < |reg|
    ensures Holders(reg, AtId(reg, id).handle) >= 1
    decreases |reg|
  {
    if id < |reg| - 1 {
      assert AtId(reg[1..], id) == AtId(reg, id);
      HolderCounted(reg[1..], id);
    }
  }

  /** The commands of an accepted registration all find their handles: the old handle has its
      record's reference, and the new one is pinned by the buffer it came in, even when it is
      the old handle and is released first. */
  lemma OverrideRuns(v: View, release: seq<Bc>, g: u32, id: nat, h: u32)
    requires ValidView(v) && h in v.refs
    requires release == [] || (release == [Release(g)] && g in v.refs && (g == h ==> v.refs[h] >= 2))
    ensures ExecAll(v, release + Link(id, h)).Some?
    ensures forall n :: 0 <= n <= |release + Link(id, h)| ==>
              var w := ExecAll(v, (release + Link(id, h))[..n]);
              w.Some? && h in w.value.refs && ValidView(w.value) && Submap(w.value.node, v.node)
  {
    hide ExecAll, Exec, Drop, Raise, Hold, Submap, ValidView, Link;
    var log := release + Link(id, h);
    var a, d := Acquire(h), RequestDeath(h, Cookie(id));
    var v1 := if release == [] then v else Drop(v, g);
    ReleaseRuns(v, release, g, h);
    LinkRuns(v1, id, h);
    var v2 := Raise(v1, h);
    var v3 := Hold(v2, h, Cookie(id));
    SubmapTransitive(v2.node, v1.node, v.node);
    SubmapTransitive(v3.node, v1.node, v.node);
    ExecConcat(v, release, [a]);
    ExecConcat(v, release + [a], [d]);
    LinkIsTwo(release, id, h);
    forall n | 0 <= n <= |log|
      ensures var w := ExecAll(v, log[..n]);
              w.Some? && h in w.value.refs && ValidView(w.value) && Submap(w.value.node, v.node)
    {
      Prefixes(release, a, d, n);
      NoCommands(v);
    }
  }

  lemma LinkIsTwo(release: seq<Bc>, id: nat, h: u32)
    ensures release + Link(id, h) == release + [Acquire(h)] + [RequestDeath(h, Cookie(id))]
  {
  }

  lemma LinkRuns(v: View, id: nat, h: u32)
    requires ValidView(v) && h in v.refs
    ensures var w := Raise(v, h);
            var u := Hold(w, h, Cookie(id));
            && ExecAll(v, [Acquire(h)]) == Some(w) && ExecAll(w, [RequestDeath(h, Cookie(id))]) == Some(u)
            && ValidView(w) && h in w.refs && Submap(w.node, v.node)
            && ValidView(u) && h in u.refs && Submap(u.node, v.node)
  {
    RaiseEffect(v, h);
    HoldEffect(Raise(v, h), h, Cookie(id));
    ExecOne(v, Acquire(h));
    ExecOne(Raise(v, h), RequestDeath(h, Cookie(id)));
    hide Hold;
  }

  lemma NoCommands(v: View)
    ensures ExecAll(v, []) == Some(v) && Submap(v.node, v.node)
  {
  }

  /** The beginnings of a log of at most three commands. */
  lemma Prefixes(release: seq<Bc>, a: Bc, d: Bc, n: nat)
    requires |release| <= 1 && n <= |release| + 2
    ensures var p := (release + [a] + [d])[..n];
            || p == []
            || p == release
            || p == release + [a]
            || p == release + [a] + [d]
  {
  }

  lemma ReleaseRuns(v: View, release: seq<Bc>, g: u32, h: u32)
    requires ValidView(v) && h in v.refs
    requires release == [] || (release == [Release(g)] && g in v.refs && (g == h ==> v.refs[h] >= 2))
    ensures var v1 := if release == [] then v else Drop(v, g);
            ExecAll(v, release) == Some(v1) && ValidView(v1) && h in v1.refs && Submap(v1.node, v.node)
  {
    if release != [] {
      DropEffect(v, g);
      assert RefCount(Drop(v, g), h) >= 1;
      ExecOne(v, Release(g));
    }
  }

  predicate Pinned(e: Event, pinned: seq<u32>) {
    e.AddEvent? && e.args.handle != 0 ==> e.args.handle in pinned
  }

  lemma {:induction false} CountIn(hs: seq<u32>, h: u32)
    ensures h in hs <==> Count(hs, h) >= 1
  {
    if hs != [] { CountIn(hs[1..], h); }
  }

  /** The commands of an event all succeed, and the handle being registered is there, meaning
      what it meant, at every point. */
  lemma EventRuns(reg: seq<Record>, v: View, e: Event, pinned: seq<u32>)
    requires WellFormedReg(reg) && ValidView(v) && Balanced(reg, v, pinned) && Pinned(e, pinned)
    ensures ExecAll(v, ApplyEvent(reg, e).1).Some?
    ensures Accepted(reg, e) ==>
              && e.args.handle in v.node
              && forall n :: 0 <= n <= |ApplyEvent(reg, e).1| ==>
                   var u := ExecAll(v, ApplyEvent(reg, e).1[..n]);
                   u.Some? && Denotes(u.value, e.args.handle, v.node[e.args.handle])
  {
    var log := ApplyEvent(reg, e).1;
    EventIsEffect(reg, e);
    if Accepted(reg, e) {
      var h := e.args.handle;
      CountIn(pinned, h);
      assert RefCount(v, h) == Holders(reg, h) + Count(pinned, h);
      var id, release, g := Target(reg, e.args), [], 0;
      if id < |reg| {
        OverriddenIs(reg, id, h);
        g := AtId(reg, id).handle;
        if g != 0 {
          HolderCounted(reg, id);
          assert RefCount(v, g) == Holders(reg, g) + Count(pinned, g);
          release := [Release(g)];
        }
      }
      assert log == release + Link(id, h);
      hide ApplyEvent, Accepts, Find, Target, Holders, Count, Link, WellFormedReg, Registry.Effect, ExecAll;
      OverrideRuns(v, release, g, id, h);
    } else if e.DeathEvent? && log != [] {
      var g := AtId(reg, e.cookie).handle;
      HolderCounted(reg, e.cookie);
      assert RefCount(v, g) == Holders(reg, g) + Count(pinned, g);
      assert log == [Release(g)];
      ExecOne(v, Release(g));
    }
  }

  /** Handle pinning in the manager: while a registration is carried out, the handle registered
      never loses its last reference, for it is in the buffer being served; so every command
      succeeds, at every point the handle is there, and afterwards the counts balance again. */
  lemma RegistrationRuns(reg: seq<Record>, v: View, e: Event, pinned: seq<u32>)
    requires WellFormedReg(reg) && ValidView(v) && Balanced(reg, v, pinned) && Pinned(e, pinned)
    ensures var (after, log) := ApplyEvent(reg, e);
            && ExecAll(v, log).Some?
            && var w := ExecAll(v, log).value;
            && ValidView(w) && Submap(w.node, v.node) && w.pins == v.pins && w.single == v.single
                && Balanced(after, w, pinned)
            && (Accepted(reg, e) ==>
                  && e.args.handle in v.node
                  && forall n :: 0 <= n <= |log| ==>
                       var u := ExecAll(v, log[..n]);
                       u.Some? && Denotes(u.value, e.args.handle, v.node[e.args.handle]))
  {
    hide ApplyEvent, Accepts, Holders, Count, ExecAll, ValidView, Submap, Net, RefCount, Pinned, WellFormedReg;
    EventRuns(reg, v, e, pinned);
    var (after, log) := ApplyEvent(reg, e);
    EventLogRefs(reg, e);
    ExecNet(v, log);
    forall h: u32 | h != 0 ensures RefCount(ExecAll(v, log).value, h) == Holders(after, h) + Count(pinned, h) {
      EventConserves(reg, e, h);
      assert RefCount(v, h) == Holders(reg, h) + Count(pinned, h);
    }
  }

  lemma EventLogRefs(reg: seq<Record>, e: Event)
    ensures forall c | c in ApplyEvent(reg, e).1 :: RefCommand(c)
  {
  }

  // ---------------------------------------------------------------------------------------
  // Receiving and serving a request
  // ---------------------------------------------------------------------------------------

  /** The driver delivers a request, if it can: the message goes into a buffer of the manager,
      and its handles are pinned there until the buffer is freed. */
  ghost function Receive(s: Sys, r: Req): Option<Sys> {
    var d := Deliver(r.sender, r.from, MANAGER, s.mgr, r.bytes, r.offsets, r.picks, r.sec.txn.buffer);
    if d.None? then None
    else Some(s.(mgr := d.value.view, queue := s.queue + [Queued(r, d.value.msg, d.value.wires, d.value.pinned)]))
  }

  /** What comes of serving a request: done, with the parser's log; or broken, when some command
      of the manager named a reference or a buffer that is not there. */
  datatype Outcome = Broken | Completed(sys: Sys, log: seq<Bc>)

  /** The reply a service sent, if it sent one: the last command written. */
  predicate Answered(o: Outcome) {
    o.Completed? && o.log != [] && o.log[|o.log| - 1].SendReply?
  }

  function Reply(o: Outcome): (r: Bc)
    requires Answered(o)
    ensures r.SendReply?
  {
    o.log[|o.log| - 1]
  }

  /** The state after a registry event for object n, with the manager's view w. */
  function AfterEvent(s: Sys, e: Event, n: Node, w: View): Sys {
    Sys(ApplyEvent(s.reg, e).0, w,
        if Accepted(s.reg, e) then
          if Target(s.reg, e.args) < |s.owners| then s.owners[Target(s.reg, e.args) := n] else s.owners + [n]
        else s.owners,
        s.es + [e], s.origin + [n], s.queue)
  }

  /** The object a registration is for. */
  function Subject(v: View, h: u32): Node {
    if h in v.node then v.node[h] else MANAGER_NODE
  }

  /** The manager serves a waiting request: the handler runs, and the commands it and the parser
      write are executed in order. */
  ghost function Serve(s: Sys, i: nat, pol: Policy, stack: StackBuffer): Outcome
    requires i < |s.queue|
  {
    var q := s.queue[i];
    var h := Manage(pol, s.reg, q.r.sec, q.msg, ReplyBuffer(stack));
    var log := ServiceLog(q.r.sec.txn, h);
    var w := ExecAll(s.mgr, log);
    if w.None? then Broken
    else
      var a := Requested(q.r.sec, q.msg);
      var rest := s.(queue := Without(s.queue, i));
      Completed(if a.Some? then AfterEvent(rest, AddEvent(pol, a.value), Subject(s.mgr, a.value.handle), w.value)
             else rest.(mgr := w.value),
             log)
  }

  /** What a service writes: the handler's commands, which only take and give references and ask
      for deaths; the release of the request's buffer; and last, exactly when the request is
      two-way, its one reply. */
  lemma ServeWrites(s: Sys, i: nat, pol: Policy, stack: StackBuffer)
    requires i < |s.queue| && Serve(s, i, pol, stack).Completed?
    ensures var q, o := s.queue[i], Serve(s, i, pol, stack);
            var h := Manage(pol, s.reg, q.r.sec, q.msg, ReplyBuffer(stack));
            && (forall c | c in h.log :: RefCommand(c))
            && o.log == h.log + [FreeBuffer(Buffer(q))] + (if q.r.sec.txn.flags % 2 == 1 then [] else [Due(h)])
            && (Answered(o) <==> q.r.sec.txn.flags % 2 == 0)
            && (Answered(o) ==> Reply(o) == Due(h) == ReplyOf(h)
                                && o.log[..|o.log| - 1] == h.log + [FreeBuffer(Buffer(q))])
  {
    var q := s.queue[i];
    var h := Manage(pol, s.reg, q.r.sec, q.msg, ReplyBuffer(stack));
    ManageIsEvent(pol, s.reg, q.r.sec, q.msg, ReplyBuffer(stack));
    var a := Requested(q.r.sec, q.msg);
    hide Manage, Requested, ReplyBuffer, ExecAll;
    if a.Some? { EventLogRefs(s.reg, AddEvent(pol, a.value)); }
  }

  /** The parser, meeting the transaction in its read buffer with the message in the mapped area,
      does exactly this. */
  lemma ParserServes(s: Sys, i: nat, pol: Policy, stacks: nat -> StackBuffer, mapped: seq<byte>, p: Parsed<seq<Record>>)
    requires i < |s.queue| && InRange(s.queue[i].r.sec.txn, |mapped|)
    requires FromTxn(mapped, s.queue[i].r.sec.txn) == s.queue[i].msg
    requires !p.halted && p.world == s.reg && Serve(s, i, pol, stacks(|p.log|)).Completed?
    ensures var o := Serve(s, i, pol, stacks(|p.log|));
            var q := Step(ManagerHooks(pol, stacks), mapped, p, TransactionSec(s.queue[i].r.sec));
            q.world == o.sys.reg && q.log == p.log + o.log
  {
    ManageIsEvent(pol, s.reg, s.queue[i].r.sec, s.queue[i].msg, ReplyBuffer(stacks(|p.log|)));
  }

  lemma {:induction false} PinsSplit(queue: seq<Queued>, i: nat, h: u32)
    requires i < |queue|
    ensures Count(AllPins(queue), h) == Count(queue[i].pinned, h) + Count(AllPins(Without(queue, i)), h)
    decreases |queue|
  {
    CountConcat(queue[0].pinned, AllPins(queue[1..]), h);
    if i == 0 {
      assert Without(queue, 0) == queue[1..];
    } else {
      PinsSplit(queue[1..], i - 1, h);
      var w := Without(queue, i);
      assert w[0] == queue[0] && w[1..] == Without(queue[1..], i - 1);
      CountConcat(queue[0].pinned, AllPins(w[1..]), h);
    }
  }

  lemma {:induction false} PinsAdded(queue: seq<Queued>, q: Queued, h: u32)
    ensures Count(AllPins(queue + [q]), h) == Count(AllPins(queue), h) + Count(q.pinned, h)
  {
    PinsSplit(queue + [q], |queue|, h);
    assert Without(queue + [q], |queue|) == queue;
  }

  /** What a waiting request pins is pinned. */
  lemma PinsKnown(queue: seq<Queued>, i: nat, h: u32)
    requires i < |queue| && h in queue[i].pinned
    ensures h in AllPins(queue)
  {
    PinsSplit(queue, i, h);
    CountIn(queue[i].pinned, h);
    CountIn(AllPins(queue), h);
  }

  /** A decoded registration names 0 or a handle its own message brought, which still means the
      object sent. */
  lemma RequestedIsPinned(s: Sys, i: nat)
    requires SysInv(s) && i < |s.queue| && Requested(s.queue[i].r.sec, s.queue[i].msg).Some?
    ensures var q := s.queue[i];
            var h := Requested(q.r.sec, q.msg).value.handle;
            h != 0 ==> h in q.pinned && h in AllPins(s.queue) && h in s.mgr.node && s.mgr.node[h].owner != MANAGER
  {
    var q := s.queue[i];
    var h := Requested(q.r.sec, q.msg).value.handle;
    assert Genuine(q, s.mgr);
    if h != 0 {
      var j := RefReader(q.msg);
      var k := HandleIsDelivered(Buffer(q), q.r.bytes, q.r.offsets, q.wires, j);
      assert Meant(q.r.sender, q.r.from, MANAGER, MessageWires(q.r.bytes, q.r.offsets).value[k], q.wires[k], s.mgr,
                   q.pinned);
      PinsKnown(s.queue, i, h);
    }
  }

  /** The reader in the state where an add request's reference is read. */
  lemma RefReader(msg: In) returns (j: In)
    requires AddRequest(Caller(0, 0, 0), Header(msg).0).Some?
    ensures Behind(j, msg)
    ensures forall c :: AddRequest(c, Header(msg).0).Some? && AddRequest(c, Header(msg).0).value.handle == GetRef(j).1
  {
    var (m1, _) := GetUint32(msg);
    var (m2, _) := GetUint32(m1);
    var (m3, _, _) := GetString16(m2);
    j := GetString16(m3).0;
    FetchEffect(msg, GetU32);
    FetchEffect(m1, GetU32);
    FetchEffect(m2, GetStr);
    FetchEffect(m3, GetStr);
    hide GetUint32, GetString16, GetRef, Behind;
    BehindTransitive(m2, m1, msg);
    BehindTransitive(m3, m2, msg);
    BehindTransitive(j, m3, msg);
  }

  // ---------------------------------------------------------------------------------------
  // Safety of every request and every death
  // ---------------------------------------------------------------------------------------

  /** After the handler's commands the buffer is freed and the reply sent; both succeed, and
      the other buffers stay as they are. */
  lemma BufferFreed(reg: seq<Record>, v: View, queue: seq<Queued>, i: nat, reply: seq<Bc>)
    requires i < |queue| && ValidView(v) && Balanced(reg, v, AllPins(queue)) && Count(AllPins(queue), 0) == 0
    requires Outstanding(queue, v)
    requires |reply| <= 1 && forall c | c in reply :: c.SendReply?
    ensures var w, rest := ExecAll(v, [FreeBuffer(Buffer(queue[i]))] + reply), Without(queue, i);
            && w.Some? && ValidView(w.value) && Submap(w.value.node, v.node) && w.value.single == v.single
            && Balanced(reg, w.value, AllPins(rest)) && Count(AllPins(rest), 0) == 0 && Outstanding(rest, w.value)
  {
    hide DropAll, Submap, AllPins, Outstanding, Count, Holders, Without;
    var b, pinned, rest := Buffer(queue[i]), queue[i].pinned, Without(queue, i);
    var u := v.(pins := v.pins - {b});
    assert ValidView(u);
    assert b in v.pins && v.pins[b] == pinned by { BufferKnown(queue, i, v); }
    forall x: u32 ensures RefCount(u, x) == RefCount(v, x) && RefCount(u, x) >= Count(pinned, x) {
      PinsSplit(queue, i, x);
      if x != 0 { assert RefCount(v, x) == Holders(reg, x) + Count(AllPins(queue), x); }
    }
    hide ValidView;
    DropAllEffect(u, pinned);
    var w := DropAll(u, pinned).value;
    ExecOne(v, FreeBuffer(b));
    ExecConcat(v, [FreeBuffer(b)], reply);
    if reply != [] {
      assert reply == [reply[0]] && reply[0] in reply;
      ExecOne(w, reply[0]);
    }
    forall h: u32 | h != 0 ensures RefCount(w, h) == Holders(reg, h) + Count(AllPins(rest), h) {
      PinsSplit(queue, i, h);
      assert RefCount(v, h) == Holders(reg, h) + Count(AllPins(queue), h);
    }
    PinsSplit(queue, i, 0);
    OneFreed(queue, i, v, w);
  }

  lemma BufferKnown(queue: seq<Queued>, i: nat, v: View)
    requires i < |queue| && Outstanding(queue, v)
    ensures Buffer(queue[i]) in v.pins && v.pins[Buffer(queue[i])] == queue[i].pinned
  {
  }

  lemma OneFreed(queue: seq<Queued>, i: nat, v: View, w: View)
    requires i < |queue| && Outstanding(queue, v) && w.pins == v.pins - {Buffer(queue[i])}
    ensures Outstanding(Without(queue, i), w)
  {
    FreedPins(queue, i, v, w);
    hide Without;
    forall b | b in w.pins ensures Waits(Without(queue, i), b) {
      StillWaits(queue, i, v, b);
    }
    hide Waits;
  }

  lemma StillWaits(queue: seq<Queued>, i: nat, v: View, b: u64)
    requires i < |queue| && Outstanding(queue, v) && b in v.pins && b != Buffer(queue[i])
    ensures Waits(Without(queue, i), b)
  {
    assert Waits(queue, b);
    var k :| 0 <= k < |queue| && Buffer(queue[k]) == b;
    WithoutAt(queue, i, if k < i then k else k - 1);
  }

  lemma FreedPins(queue: seq<Queued>, i: nat, v: View, w: View)
    requires i < |queue| && Outstanding(queue, v) && w.pins == v.pins - {Buffer(queue[i])}
    ensures var rest := Without(queue, i);
            && (forall k :: 0 <= k < |rest| ==> Buffer(rest[k]) in w.pins && w.pins[Buffer(rest[k])] == rest[k].pinned)
            && (forall j, k :: 0 <= j < k < |rest| ==> Buffer(rest[j]) != Buffer(rest[k]))
  {
    hide Waits, Without;
    var rest := Without(queue, i);
    forall k | 0 <= k < |rest|
      ensures Buffer(rest[k]) in w.pins && w.pins[Buffer(rest[k])] == rest[k].pinned
    {
      WithoutAt(queue, i, k);
    }
    forall j, k | 0 <= j < k < |rest| ensures Buffer(rest[j]) != Buffer(rest[k]) {
      WithoutAt(queue, i, j);
      WithoutAt(queue, i, k);
    }
  }

  lemma WithoutAt(queue: seq<Queued>, i: nat, k: nat)
    requires i < |queue| && k < |queue| - 1
    ensures Without(queue, i)[k] == queue[if k < i then k else k + 1]
  {
  }

  /** The whole service of a transaction on the manager's view. */
  lemma ServiceRuns(reg: seq<Record>, v: View, e: Event, queue: seq<Queued>, i: nat, h: Handled<seq<Record>>)
    requires i < |queue| && WellFormedReg(reg) && ValidView(v)
    requires Balanced(reg, v, AllPins(queue)) && Count(AllPins(queue), 0) == 0 && Outstanding(queue, v)
    requires Pinned(e, AllPins(queue))
    requires h.world == ApplyEvent(reg, e).0 && h.log == ApplyEvent(reg, e).1
    ensures var w, rest := ExecAll(v, ServiceLog(queue[i].r.sec.txn, h)), Without(queue, i);
            && w.Some? && ValidView(w.value) && Submap(w.value.node, v.node) && w.value.single == v.single
            && Balanced(h.world, w.value, AllPins(rest)) && Count(AllPins(rest), 0) == 0 && Outstanding(rest, w.value)
  {
    hide ValidView, Submap, AllPins, ApplyEvent, Pinned, WellFormedReg, Balanced, ExecAll;
    RegistrationRuns(reg, v, e, AllPins(queue));
    var w1 := ExecAll(v, h.log).value;
    assert Outstanding(queue, w1);
    hide Outstanding;
    var t := queue[i].r.sec.txn;
    var reply := if OneWay(t) then [] else [ReplyOf(h)];
    BufferFreed(h.world, w1, queue, i, reply);
    assert ServiceLog(t, h) == h.log + ([FreeBuffer(t.buffer)] + reply);
    ExecConcat(v, h.log, [FreeBuffer(t.buffer)] + reply);
    SubmapTransitive(ExecAll(v, ServiceLog(t, h)).value.node, w1.node, v.node);
  }

  /** Waiting messages keep their meaning while handles are only given back, for theirs are
      pinned. */
  lemma StaysGenuine(reg: seq<Record>, queue: seq<Queued>, v: View, w: View)
    requires AllGenuine(queue, v) && Submap(w.node, v.node) && ValidView(w)
    requires Balanced(reg, w, AllPins(queue)) && Count(AllPins(queue), 0) == 0
    ensures AllGenuine(queue, w)
  {
    hide MessageWires, Delivered, NodeOf;
    forall i | 0 <= i < |queue| ensures Genuine(queue[i], w) {
      var q := queue[i];
      assert Genuine(q, v);
      var ws := MessageWires(q.r.bytes, q.r.offsets).value;
      forall k | 0 <= k < |ws| ensures Meant(q.r.sender, q.r.from, MANAGER, ws[k], q.wires[k], w, q.pinned) {
        assert Meant(q.r.sender, q.r.from, MANAGER, ws[k], q.wires[k], v, q.pinned);
        var h := HandleOf(q.wires[k]);
        if h != 0 {
          PinsKnown(queue, i, h);
          CountIn(AllPins(queue), h);
          assert RefCount(w, h) == Holders(reg, h) + Count(AllPins(queue), h);
        }
      }
    }
  }

  lemma {:induction false} AllGenuineWithout(queue: seq<Queued>, i: nat, v: View)
    requires i < |queue| && AllGenuine(queue, v)
    ensures AllGenuine(Without(queue, i), v)
  {
    var rest := Without(queue, i);
    forall k | 0 <= k < |rest| ensures Genuine(rest[k], v) {
      WithoutAt(queue, i, k);
    }
  }

  /** An event that touches nothing: a registration of handle 0. */
  function Idle(pol: Policy): Event {
    AddEvent(pol, AddArgs([], 0, Caller(0, 0, 0), false, 0))
  }

  /** A record after an event is the target of the registration, or has its old handle or 0. */
  lemma RecordAfter(reg: seq<Record>, e: Event, k: nat)
    requires WellFormedReg(reg) && k < |ApplyEvent(reg, e).0|
    ensures Accepted(reg, e) && Target(reg, e.args) == k ==> AtId(ApplyEvent(reg, e).0, k).handle == e.args.handle
    ensures !(Accepted(reg, e) && Target(reg, e.args) == k) ==>
              && k < |reg|
              && (AtId(ApplyEvent(reg, e).0, k).handle == AtId(reg, k).handle
                  || AtId(ApplyEvent(reg, e).0, k).handle == 0)
  {
    EventIsEffect(reg, e);
    hide ApplyEvent, Accepts, Find, WellFormedReg;
    var after := ApplyEvent(reg, e).0;
    if Accepted(reg, e) && Target(reg, e.args) >= |reg| && k < |reg| {
      assert AtId(after, k) == AtId(reg, k);
    }
  }

  /** Live records keep their meaning across a registry event. */
  lemma StaysFaithful(s: Sys, e: Event, n: Node, w: View, pinned: seq<u32>)
    requires SysInv(s) && WellFormedReg(s.reg)
    requires Submap(w.node, s.mgr.node) && ValidView(w) && Balanced(ApplyEvent(s.reg, e).0, w, pinned)
    requires Accepted(s.reg, e) ==> n == Subject(s.mgr, e.args.handle)
    ensures Faithful(AfterEvent(s, e, n, w).reg, AfterEvent(s, e, n, w).owners, w)
  {
    var s' := AfterEvent(s, e, n, w);
    OwnersCounted(s, e, n, w);
    hide ApplyEvent, Accepts, Find, OwnersByHistory, Holders, WellFormedReg, AllGenuine, Outstanding;
    forall k | 0 <= k < |s'.reg| && AtId(s'.reg, k).handle != 0
      ensures Denotes(w, AtId(s'.reg, k).handle, s'.owners[k])
    {
      RecordAfter(s.reg, e, k);
      HeldIsKnown(s'.reg, w, pinned, k);
      if !(Accepted(s.reg, e) && Target(s.reg, e.args) == k) {
        assert Denotes(s.mgr, AtId(s.reg, k).handle, s.owners[k]);
      }
    }
  }

  lemma OwnersCounted(s: Sys, e: Event, n: Node, w: View)
    requires SysInv(s) && WellFormedReg(s.reg)
    ensures |AfterEvent(s, e, n, w).owners| == |AfterEvent(s, e, n, w).reg|
    ensures Accepted(s.reg, e) ==> Target(s.reg, e.args) <= |s.reg|
  {
    EventIsEffect(s.reg, e);
  }

  lemma HeldIsKnown(reg: seq<Record>, w: View, pinned: seq<u32>, k: nat)
    requires k < |reg| && AtId(reg, k).handle != 0 && ValidView(w) && Balanced(reg, w, pinned)
    ensures AtId(reg, k).handle in w.node
  {
    var h := AtId(reg, k).handle;
    HolderCounted(reg, k);
    assert RefCount(w, h) == Holders(reg, h) + Count(pinned, h);
  }

  /** An event that does not register a name leaves its record where it is, with its owner. */
  lemma KeepsOwner(s: Sys, e: Event, n: Node, w: View, name: Name, id: nat)
    requires WellFormedReg(s.reg) && |s.owners| == |s.reg| && Find(s.reg, name) == Some(id)
    requires !(Accepted(s.reg, e) && e.args.name == name)
    ensures Find(AfterEvent(s, e, n, w).reg, name) == Some(id)
    ensures id < |s.owners| && id < |AfterEvent(s, e, n, w).owners|
    ensures AfterEvent(s, e, n, w).owners[id] == s.owners[id]
  {
    EventIsEffect(s.reg, e);
    SurvivesEvent(s.reg, e, name, id);
    hide ApplyEvent, Accepts, WellFormedReg;
  }

  /** The owners recorded are those of the last accepted registrations. */
  lemma StaysByHistory(s: Sys, e: Event, n: Node, w: View)
    requires SysInv(s) && WellFormedReg(s.reg)
    ensures OwnersByHistory(AfterEvent(s, e, n, w)) && AfterEvent(s, e, n, w).reg == RegAfter(s.es + [e])
  {
    var s', m := AfterEvent(s, e, n, w), |s.es|;
    assert s'.es[..m] == s.es && s'.es[m] == e;
    EventKeeps(s.reg, e);
    EventIsEffect(s.reg, e);
    hide ApplyEvent, Accepts, WellFormedReg, Balanced, AllGenuine, Outstanding, Faithful, ValidView;
    PrefixRegisters(s'.es, m, []);
    forall name: Name, last: nat | Last(s'.es, last, name)
      ensures Find(s'.reg, name).Some? && s'.owners[Find(s'.reg, name).value] == s'.origin[last]
    {
      PrefixRegisters(s'.es, m, name);
      if last < m {
        assert Last(s.es, last, name);
        assert !Registers(s'.es, m, name);
        KeepsOwner(s, e, n, w, name, Find(s.reg, name).value);
      } else {
        assert Registers(s'.es, m, name);
      }
    }
  }

  /** A state after an event satisfies the invariant when its parts do. */
  lemma Reestablished(s: Sys, e: Event, n: Node, w: View, queue: seq<Queued>)
    requires SysInv(s) && WellFormedReg(s.reg)
    requires Submap(w.node, s.mgr.node) && ValidView(w)
    requires Balanced(ApplyEvent(s.reg, e).0, w, AllPins(queue)) && Count(AllPins(queue), 0) == 0
    requires Outstanding(queue, w) && AllGenuine(queue, s.mgr)
    requires Accepted(s.reg, e) ==> n == Subject(s.mgr, e.args.handle)
    ensures SysInv(AfterEvent(s.(queue := queue), e, n, w))
  {
    StaysFaithful(s, e, n, w, AllPins(queue));
    StaysByHistory(s, e, n, w);
    StaysGenuine(ApplyEvent(s.reg, e).0, queue, s.mgr, w);
    SubmapOwners(w.node, s.mgr.node);
    hide ApplyEvent, Balanced, Submap, ValidView, Faithful, AllGenuine, Outstanding, AllPins, Accepts;
    HistoryQueue(AfterEvent(s, e, n, w), queue);
  }

  lemma HistoryQueue(s: Sys, queue: seq<Queued>)
    requires OwnersByHistory(s)
    ensures OwnersByHistory(s.(queue := queue))
  {
  }

  /** Safety of every request, over every reachable state: whatever bytes a client sent, with
      whatever objects, and whatever else waits, no command of the manager names a handle or a
      buffer it does not hold, its counts balance again, and every live record still denotes the
      object registered. */
  lemma RequestSafe(s: Sys, i: nat, pol: Policy, stack: StackBuffer)
    requires SysInv(s) && i < |s.queue|
    ensures Serve(s, i, pol, stack).Completed? && SysInv(Serve(s, i, pol, stack).sys)
  {
    var q, rest := s.queue[i], Without(s.queue, i);
    var a := Requested(q.r.sec, q.msg);
    var e := if a.Some? then AddEvent(pol, a.value) else Idle(pol);
    var h := Manage(pol, s.reg, q.r.sec, q.msg, ReplyBuffer(stack));
    RunKeeps(s.es, 0);
    hide Manage, Requested, ServiceLog, ExecAll, ReplyBuffer, Balanced, Submap, ValidView, Faithful;
    hide OwnersByHistory, Outstanding, AllGenuine, AllPins, Count;
    ManageIsEvent(pol, s.reg, q.r.sec, q.msg, ReplyBuffer(stack));
    if a.Some? { RequestedIsPinned(s, i); }
    ServiceRuns(s.reg, s.mgr, e, s.queue, i, h);
    var w := ExecAll(s.mgr, ServiceLog(q.r.sec.txn, h)).value;
    AllGenuineWithout(s.queue, i, s.mgr);
    var n := if a.Some? then Subject(s.mgr, a.value.handle) else MANAGER_NODE;
    Reestablished(s, e, n, w, rest);
    if a.None? {
      HistoryIdle(s, rest, w, pol, n);
    }
  }

  /** An event that touches nothing may be left out of the history. */
  lemma HistoryIdle(s: Sys, queue: seq<Queued>, w: View, pol: Policy, n: Node)
    requires SysInv(s) && SysInv(AfterEvent(s.(queue := queue), Idle(pol), n, w))
    ensures SysInv(s.(mgr := w, queue := queue))
  {
    hide Balanced, ValidView, AllGenuine, Outstanding, AllPins, Count;
    HistoryQueue(s, queue);
  }

  /** A delivery keeps the invariant too. */
  lemma ReceiveSafe(s: Sys, r: Req)
    requires SysInv(s) && Receive(s, r).Some?
    ensures SysInv(Receive(s, r).value)
  {
    var s' := Receive(s, r).value;
    var q := s'.queue[|s.queue|];
    DeliverEffect(r.sender, r.from, MANAGER, s.mgr, r.bytes, r.offsets, r.picks, r.sec.txn.buffer);
    var v := s'.mgr.(pins := s.mgr.pins);
    hide MessageWires, Deliver, Outstanding, AllGenuine, Faithful, RefCount, Balanced, Count, AllPins, Meant;
    hide OwnersByHistory;
    DeliveredBalanced(s, s', q, v);
    DeliveredOutstanding(s, s', q);
    DeliveredGenuine(s, s', q, v);
    DeliveredFaithful(s, s');
    SameTablesValid(v, s'.mgr);
    HistoryDelivered(s, s');
  }

  lemma SameTablesValid(a: View, b: View)
    requires a == b.(pins := a.pins) && ValidView(a)
    ensures ValidView(b)
  {
  }

  lemma DeliveredBalanced(s: Sys, s': Sys, q: Queued, v: View)
    requires ValidView(v) && v == s'.mgr.(pins := v.pins) && s'.queue == s.queue + [q] && s'.reg == s.reg
    requires Balanced(s.reg, s.mgr, AllPins(s.queue)) && Count(AllPins(s.queue), 0) == 0
    requires forall x :: RefCount(v, x) == RefCount(s.mgr, x) + Count(q.pinned, x)
    ensures Balanced(s'.reg, s'.mgr, AllPins(s'.queue)) && Count(AllPins(s'.queue), 0) == 0
  {
    hide AllPins, Count, Holders;
    forall h: u32 | h != 0 ensures RefCount(s'.mgr, h) == Holders(s.reg, h) + Count(AllPins(s'.queue), h) {
      PinsAdded(s.queue, q, h);
      assert RefCount(v, h) == RefCount(s.mgr, h) + Count(q.pinned, h);
      assert RefCount(s.mgr, h) == Holders(s.reg, h) + Count(AllPins(s.queue), h);
    }
    PinsAdded(s.queue, q, 0);
    assert RefCount(v, 0) == RefCount(s.mgr, 0) + Count(q.pinned, 0);
  }

  lemma HistoryDelivered(s: Sys, s': Sys)
    requires OwnersByHistory(s) && s' == s.(mgr := s'.mgr, queue := s'.queue)
    ensures OwnersByHistory(s')
  {
  }

  lemma DeliveredOutstanding(s: Sys, s': Sys, q: Queued)
    requires Outstanding(s.queue, s.mgr) && Buffer(q) !in s.mgr.pins
    requires s'.queue == s.queue + [q] && s'.mgr.pins == s.mgr.pins[Buffer(q) := q.pinned]
    ensures Outstanding(s'.queue, s'.mgr)
  {
    var m := |s.queue|;
    forall k | 0 <= k <= m ensures s'.queue[k] == if k < m then s.queue[k] else q {
    }
    forall b | b in s'.mgr.pins ensures Waits(s'.queue, b) {
      if b == Buffer(q) {
        assert Buffer(s'.queue[m]) == b;
      } else {
        assert Waits(s.queue, b);
        var k :| 0 <= k < m && Buffer(s.queue[k]) == b;
        assert Buffer(s'.queue[k]) == b;
      }
    }
    hide Waits;
    forall k | 0 <= k <= m
      ensures Buffer(s'.queue[k]) in s'.mgr.pins && s'.mgr.pins[Buffer(s'.queue[k])] == s'.queue[k].pinned
      ensures forall j :: 0 <= j < k ==> Buffer(s'.queue[j]) != Buffer(s'.queue[k])
    {
    }
  }

  lemma DeliveredGenuine(s: Sys, s': Sys, q: Queued, v: View)
    requires AllGenuine(s.queue, s.mgr) && s'.queue == s.queue + [q]
    requires v.node == s'.mgr.node && MessageWires(q.r.bytes, q.r.offsets).Some? && |q.wires| == |q.r.offsets|
    requires q.msg == Delivered(Buffer(q), q.r.bytes, q.r.offsets, q.wires)
    requires GoodTranslation(q.r.sender, q.r.from, MANAGER, s.mgr, MessageWires(q.r.bytes, q.r.offsets).value,
                             Translated(v, q.wires, q.pinned))
    ensures AllGenuine(s'.queue, s'.mgr)
  {
    hide MessageWires, Delivered, ValidView, NodeOf;
    forall i | 0 <= i < |s'.queue| ensures Genuine(s'.queue[i], s'.mgr) {
      var p := s'.queue[i];
      if i < |s.queue| { assert p == s.queue[i] && Genuine(p, s.mgr); } else { assert p == q; }
      var ws := MessageWires(p.r.bytes, p.r.offsets).value;
      forall k | 0 <= k < |ws| ensures Meant(p.r.sender, p.r.from, MANAGER, ws[k], p.wires[k], s'.mgr, p.pinned) {
        if i < |s.queue| {
          assert Meant(p.r.sender, p.r.from, MANAGER, ws[k], p.wires[k], s.mgr, p.pinned);
        } else {
          assert Meant(p.r.sender, p.r.from, MANAGER, ws[k], p.wires[k], v, p.pinned);
        }
      }
    }
  }

  lemma DeliveredFaithful(s: Sys, s': Sys)
    requires Faithful(s.reg, s.owners, s.mgr) && s'.reg == s.reg && s'.owners == s.owners
             && Submap(s.mgr.node, s'.mgr.node)
    ensures Faithful(s'.reg, s'.owners, s'.mgr)
  {
    forall k | 0 <= k < |s.reg| && AtId(s.reg, k).handle != 0
      ensures Denotes(s'.mgr, AtId(s.reg, k).handle, s.owners[k]) {
      assert Denotes(s.mgr, AtId(s.reg, k).handle, s.owners[k]);
    }
  }

  /** A death notification. The driver sends back the cookies it was given, and those are the
      addresses of records. */
  ghost function Die(s: Sys, cookie: u64): Option<Sys> {
    var e := DeathEvent(cookie);
    var w := ExecAll(s.mgr, ApplyEvent(s.reg, e).1);
    if w.None? then None else Some(AfterEvent(s, e, MANAGER_NODE, w.value))
  }

  /** The parser, meeting the notification in its read buffer, does exactly this. */
  lemma ParserNotifies(s: Sys, cookie: u64, pol: Policy, stacks: nat -> StackBuffer, mapped: seq<byte>,
                       p: Parsed<seq<Record>>)
    requires !p.halted && p.world == s.reg && Die(s, cookie).Some?
    ensures var q := Step(ManagerHooks(pol, stacks), mapped, p, DeadBinder(cookie));
            && q.world == Die(s, cookie).value.reg
            && p.log <= q.log && ExecAll(s.mgr, q.log[|p.log|..]) == Some(Die(s, cookie).value.mgr)
  {
    var l := ApplyEvent(s.reg, DeathEvent(cookie)).1;
    assert (p.log + l)[|p.log|..] == l;
  }

  /** A death notification is safe whichever record its cookie names; a cookie of no record is
      taken as naming nothing. */
  lemma DeathSafe(s: Sys, cookie: u64)
    requires SysInv(s)
    ensures Die(s, cookie).Some? && SysInv(Die(s, cookie).value)
  {
    var e := DeathEvent(cookie);
    RunKeeps(s.es, 0);
    RegistrationRuns(s.reg, s.mgr, e, AllPins(s.queue));
    var w := ExecAll(s.mgr, ApplyEvent(s.reg, e).1).value;
    hide ApplyEvent, ExecAll, Balanced, Submap, ValidView, Faithful, OwnersByHistory, AllGenuine, AllPins;
    assert Outstanding(s.queue, w);
    hide Outstanding;
    Reestablished(s, e, MANAGER_NODE, w, s.queue);
  }

  lemma SubmapOwners(a: map<u32, Node>, b: map<u32, Node>)
    requires Submap(a, b) && forall h | h in b :: b[h].owner != MANAGER
    ensures forall h | h in a :: a[h].owner != MANAGER
  {
  }

  /** What can happen to the manager: a request is delivered, if the driver can; a waiting
      request is served; a death is announced. */
  datatype Stimulus = Arrives(r: Req) | Serves(i: nat, pol: Policy, stack: StackBuffer) | Dies(cookie: u64)

  ghost function React(s: Sys, x: Stimulus): Option<Sys> {
    match x
    case Arrives(r) => if Receive(s, r).Some? then Receive(s, r) else Some(s)
    case Serves(i, pol, stack) =>
      if i >= |s.queue| then Some(s)
      else (match Serve(s, i, pol, stack) case Broken => None case Completed(s', _) => Some(s'))
    case Dies(k) => Die(s, k)
  }

  ghost function RunSys(s: Sys, xs: seq<Stimulus>): Option<Sys>
    decreases |xs|
  {
    if xs == [] then Some(s)
    else
      var n := React(s, xs[0]);
      if n.None? then None else RunSys(n.value, xs[1..])
  }

  lemma ReactSafe(s: Sys, x: Stimulus)
    requires SysInv(s)
    ensures React(s, x).Some? && SysInv(React(s, x).value)
  {
    hide SysInv, Serve, Die, Receive;
    match x
    case Arrives(r) => if Receive(s, r).Some? { ReceiveSafe(s, r); }
    case Serves(i, pol, stack) => if i < |s.queue| { RequestSafe(s, i, pol, stack); }
    case Dies(k) => DeathSafe(s, k);
  }

  lemma {:induction false} RunsFrom(s: Sys, xs: seq<Stimulus>)
    requires SysInv(s)
    ensures RunSys(s, xs).Some? && SysInv(RunSys(s, xs).value)
    decreases |xs|
  {
    if xs != [] {
      hide SysInv, React;
      ReactSafe(s, xs[0]);
      RunsFrom(React(s, xs[0]).value, xs[1..]);
    }
  }

  lemma InitialIsSafe(single: bool)
    ensures SysInv(Initial(single))
  {
    forall name: Name, last: nat ensures !Last([], last, name) {
    }
  }

  /** Over every run from the start, under either kind of driver and any mix of deliveries,
      services and deaths, nothing breaks: the manager never names a reference or buffer it does
      not have, its references are exactly its records and its waiting messages, and every live
      record denotes the object it was last registered for. */
  lemma EveryRunIsSafe(single: bool, xs: seq<Stimulus>)
    ensures RunSys(Initial(single), xs).Some? && SysInv(RunSys(Initial(single), xs).value)
  {
    InitialIsSafe(single);
    RunsFrom(Initial(single), xs);
  }

  /** In every reachable state a name is live exactly when it has an accepted registration and no
      death with its record's cookie came after the last one; and it then stands for the object
      of that last registration. */
  lemma LiveIsLastRegistered(s: Sys, name: Name, first: nat, last: nat)
    requires SysInv(s) && First(s.es, first, name) && Last(s.es, last, name)
    ensures LiveNode(s, name)
         == if DiesAfter(s.es, last, |RegAfter(s.es[..first])|) then None else Some(s.origin[last])
  {
    RecordHistory(s.es, name, first, last);
    assert s.es[last].args.handle != 0;
  }

  lemma NeverLive(s: Sys, name: Name)
    requires SysInv(s) && forall k :: 0 <= k < |s.es| ==> !Registers(s.es, k, name)
    ensures LiveNode(s, name).None?
  {
    NeverRegistered(s.es, name);
  }
}
