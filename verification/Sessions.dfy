/** Whole sessions of the clients: svcmgr_publish and svcmgr_lookup as they run over their driver,
    and a client's enumeration of the registry, each against the service manager's runs. */
module Sessions {
  import opened Words
  import opened Writer
  import opened Reader
  import opened Delivery
  import opened Commands
  import opened Parser
  import opened Rounds
  import opened BinderLib
  import opened Registry
  import opened RegistryLaws
  import opened Manager
  import opened Clients
  import opened WireProtocol
  import opened Driver
  import opened System
  import opened EndToEnd

  /** The driver delivered an offered transaction to the manager. */
  ghost predicate Carries(q: Queued, o: Offer) {
    && q.r.bytes == o.bytes && q.r.offsets == o.offsets
    && o.target == 0 && q.r.sec.txn.target == 0 && q.r.sec.txn.code == o.code && q.r.sec.txn.flags == o.flags
  }

  /** A round brings a reply: its first BR_REPLY points at the reply's data, rewritten by the
      driver, and at its offset table. */
  ghost predicate Brings(r: Round, reply: Bc, ws: seq<Wire>, buffer: u64) {
    && reply.SendReply? && Spaced(reply.offsets, |reply.bytes|) && |ws| == |reply.offsets| && |reply.bytes| < TWO64
    && FirstReply(r.cs) < |r.cs|
    && var t := r.cs[FirstReply(r.cs)].txn;
    && InRange(t, |r.area|) && t.buffer == buffer
    && t.dataSize == |reply.bytes| && t.offsetsSize == 8 * |reply.offsets|
    && r.area[t.buffer..t.buffer + t.dataSize] == Rewrite(reply.bytes, reply.offsets, ws)
    && r.area[t.offsets..t.offsets + t.offsetsSize] == TableBytes(reply.offsets)
  }

  lemma AddressesFit(offsets: seq<nat>, limit: nat)
    requires Spaced(offsets, limit) && limit < TWO64
    ensures forall k :: 0 <= k < |offsets| ==> offsets[k] < TWO64
  {
  }

  /** A successful call whose last round brings a reply returns the delivered message. */
  lemma BroughtReply<S>(hooks: Hooks<S>, size: nat, world: S, log: seq<Bc>, rounds: seq<Round>, reply: Bc,
                        ws: seq<Wire>, buffer: u64)
    requires ValidRounds(rounds, size) && Calling(hooks, size, world, log, rounds).end.Replied?
    requires 0 < Calling(hooks, size, world, log, rounds).used <= |rounds|
    requires Brings(rounds[Calling(hooks, size, world, log, rounds).used - 1], reply, ws, buffer)
    ensures Calling(hooks, size, world, log, rounds).end.reply == Delivered(buffer, reply.bytes, reply.offsets, ws)
  {
    hide Calling, TableBytes, Rewrite, FromTxn, Delivered, ValidRounds, Deliveries, FirstReply, WellFormed;
    CallReply(hooks, size, world, log, rounds);
    var r := rounds[Calling(hooks, size, world, log, rounds).used - 1];
    AddressesFit(reply.offsets, |reply.bytes|);
    hide Spaced;
    LaidOut(r.area, r.cs[FirstReply(r.cs)].txn, reply.bytes, reply.offsets, ws);
  }

  /** The request a publisher offered, once delivered, is a publish of its name and object. */
  lemma OfferedPublish(q: Queued, o: Offer, iodata: MessageBuffer, name: seq<byte>, ptr: u64)
    requires PlainName(name) && Carries(q, o) && o.flags == 0 && o.code == 3
    requires CString(NameArg(name)) && ValidOps(PublishOps(NameArg(name), ptr))
    requires o.bytes == Request(iodata, PublishOps(NameArg(name), ptr)).bytes
    requires o.offsets == Request(iodata, PublishOps(NameArg(name), ptr)).offsets
    ensures IsPublish(q.r, iodata, name, ptr)
  {
    hide Request, PublishOps;
  }

  lemma OfferedLookup(q: Queued, o: Offer, iodata: MessageBuffer, name: seq<byte>)
    requires PlainName(name) && Carries(q, o) && o.flags == 0 && o.code == 2
    requires CString(NameArg(name)) && ValidOps(LookupOps(NameArg(name)))
    requires o.bytes == Request(iodata, LookupOps(NameArg(name))).bytes
    requires o.offsets == Request(iodata, LookupOps(NameArg(name))).offsets
    ensures IsLookup(q.r, iodata, name)
  {
    hide Request, LookupOps;
  }

  /** The run of a client's call: no handler, and its own callbacks. */
  ghost function ClientRun<S>(bs: Binder<S>, world: S, log: seq<Bc>, rounds: seq<Round>): (run: CallRun<S>)
    reads bs
    requires ValidRounds(rounds, bs.mapped.Length)
    ensures run.end.Replied? ==> 0 < run.used <= |rounds|
  {
    var run := Calling(Hooks(None, bs.death, bs.stack), bs.mapped.Length, world, log, rounds);
    CallStops(Hooks(None, bs.death, bs.stack), bs.mapped.Length, world, log, rounds);
    run
  }

  /** svcmgr_publish over its driver and against the manager: it refuses an overflowed message by
      itself; otherwise, if the manager serves the very transaction it offered and the reply is
      what its call ends with, it returns 0 exactly when the manager accepts, and -1 if not. */
  method PublishAgainst<S>(bs: Binder<S>, name: seq<byte>, ptr: u64, ghost s: Sys, ghost i: nat, ghost pol: Policy,
                           ghost stack: StackBuffer, ghost buffer: u64) returns (status: Option<int>)
    requires bs.ValidScript() && PlainName(name) && SysInv(s) && i < |s.queue|
    modifies bs`world, bs`log, bs`rounds, bs`taken, bs`offered, bs.mapped
    ensures !PublishFits(name) ==> status == Some(-1) && unchanged(bs)
    ensures PublishFits(name) ==> |bs.offered| == |old(bs.offered)| + 1
    ensures PublishFits(name) ==>
              var run := ClientRun(bs, old(bs.world), old(bs.log), old(bs.rounds));
              var o := Serve(s, i, pol, stack);
              && (Carries(s.queue[i], bs.offered[|old(bs.offered)|]) ==> Answered(o))
              && (Carries(s.queue[i], bs.offered[|old(bs.offered)|]) && run.end.Replied? && Answered(o)
                  && Brings(old(bs.rounds)[run.used - 1], Reply(o), [], buffer) ==>
                    var r := s.queue[i].r;
                    status == Some(if Welcome(s, r.sender, name, r.sec, pol) then 0 else -1))
  {
    hide Calling, SysInv, Serve, Request, PublishOps, Brings, Welcome, PublishStatus, Delivered, ValidRounds;
    hide Storable, Without;
    NameString(name);
    ghost var world, log, rounds, before := bs.world, bs.log, bs.rounds, bs.offered;
    ghost var iodata;
    status, iodata := Publish(bs, 0, NameArg(name), ptr);
    PublishSent(iodata, name, ptr);
    RequestSafe(s, i, pol, stack);
    ghost var run := ClientRun(bs, world, log, rounds);
    ghost var o := Serve(s, i, pol, stack);
    if PublishFits(name) {
      ghost var offer := bs.offered[|before|];
      if Carries(s.queue[i], offer) {
        OfferedPublish(s.queue[i], offer, iodata, name, ptr);
        PublishEndToEnd(s, i, iodata, name, ptr, pol, stack, buffer, []);
        if run.end.Replied? && Brings(rounds[run.used - 1], Reply(o), [], buffer) {
          BroughtReply(Hooks(None, bs.death, bs.stack), bs.mapped.Length, world, log, rounds, Reply(o), [], buffer);
        }
      }
    }
  }

  lemma PublishSent(iodata: MessageBuffer, name: seq<byte>, ptr: u64)
    requires PlainName(name)
    ensures CString(NameArg(name)) && ValidOps(PublishOps(NameArg(name), ptr)) && ValidOps(LookupOps(NameArg(name)))
    ensures !Request(iodata, PublishOps(NameArg(name), ptr)).flags.overflow <==> PublishFits(name)
    ensures !Request(iodata, LookupOps(NameArg(name))).flags.overflow <==> LookupFits(name)
  {
    NameString(name);
    hide Request, PublishOps, LookupOps;
    RequestFits(iodata, NameArg(name), ptr);
  }

  /** svcmgr_lookup over its driver and against the manager, for a client q whose view of the
      driver is cv when the reply reaches it: it returns a handle exactly for a live name that it
      may find and does not own itself, the handle denotes the object published, and the
      commands of the call leave it exactly one reference more. */
  method LookupAgainst<S>(bs: Binder<S>, name: seq<byte>, ghost s: Sys, ghost i: nat, ghost pol: Policy,
                          ghost stack: StackBuffer, ghost q: nat, ghost cv: View, ghost picks: seq<u32>,
                          ghost buffer: u64)
    returns (handle: Option<u32>)
    requires bs.ValidScript() && PlainName(name) && SysInv(s) && i < |s.queue| && ValidView(cv)
    modifies bs`world, bs`log, bs`rounds, bs`taken, bs`offered, bs.mapped
    ensures !LookupFits(name) ==> handle == Some(0) && unchanged(bs)
    ensures LookupFits(name) ==> |bs.offered| == |old(bs.offered)| + 1
    ensures LookupFits(name) ==>
              var run := ClientRun(bs, old(bs.world), old(bs.log), old(bs.rounds));
              var o, live := Serve(s, i, pol, stack), LiveNode(s, Widen(name));
              && (Carries(s.queue[i], bs.offered[|old(bs.offered)|]) ==> Answered(o))
              && (Carries(s.queue[i], bs.offered[|old(bs.offered)|]) && run.end.Replied? && Answered(o)
                  && ReplyArrival(o.sys, Reply(o), q, cv, picks, buffer).Some?
                  && Brings(old(bs.rounds)[run.used - 1], Reply(o),
                            ReplyArrival(o.sys, Reply(o), q, cv, picks, buffer).value.wires, buffer)
                  ==>
                    var p := ReplyArrival(o.sys, Reply(o), q, cv, picks, buffer).value;
                    && handle.Some? && bs.log == run.log + LookupLog(p.msg)
                    && (handle.value != 0 <==>
                          && live.Some? && MayFind(s, Widen(name), s.queue[i].r.sec, pol)
                          && live.value.owner != q)
                    && Taken(cv, p.view, LookupLog(p.msg), handle.value)
                    && (handle.value != 0 ==>
                          Denotes(ExecAll(p.view, LookupLog(p.msg)).value, handle.value, live.value)))
  {
    hide Calling, SysInv, Serve, Request, LookupOps, Brings, MayFind, Delivered, ValidRounds, Storable;
    hide GetRef, LookupLog, Taken, ExecAll, ValidView, Deliver;
    NameString(name);
    ghost var world, log, rounds, before := bs.world, bs.log, bs.rounds, bs.offered;
    ghost var iodata;
    handle, iodata := Lookup(bs, 0, NameArg(name));
    PublishSent(iodata, name, 0);
    RequestSafe(s, i, pol, stack);
    LiveDefined(s);
    ghost var run := ClientRun(bs, world, log, rounds);
    ghost var o := Serve(s, i, pol, stack);
    if LookupFits(name) {
      ghost var offer := bs.offered[|before|];
      if Carries(s.queue[i], offer) {
        OfferedLookup(s.queue[i], offer, iodata, name);
        LookupAnswers(s, i, iodata, name, pol, stack);
        if run.end.Replied? && ReplyArrival(o.sys, Reply(o), q, cv, picks, buffer).Some? {
          ghost var p := ReplyArrival(o.sys, Reply(o), q, cv, picks, buffer).value;
          if Brings(rounds[run.used - 1], Reply(o), p.wires, buffer) {
            BroughtReply(Hooks(None, bs.death, bs.stack), bs.mapped.Length, world, log, rounds, Reply(o), p.wires,
                         buffer);
            DeliverEffect(MANAGER, o.sys.mgr, q, cv, Reply(o).bytes, Reply(o).offsets, picks, buffer);
            LookupEndToEnd(s, i, iodata, name, pol, stack, q, cv, picks, buffer);
          }
        }
      }
    }
  }

  /** A lookup is always answered. */
  lemma LookupAnswers(s: Sys, i: nat, iodata: MessageBuffer, name: seq<byte>, pol: Policy, stack: StackBuffer)
    requires SysInv(s) && i < |s.queue| && PlainName(name) && IsLookup(s.queue[i].r, iodata, name)
    ensures Answered(Serve(s, i, pol, stack))
  {
    RequestSafe(s, i, pol, stack);
    ServeWrites(s, i, pol, stack);
    NameString(name);
    hide SysInv, Serve, Answered, Request, LookupOps;
  }

  lemma LiveDefined(s: Sys)
    requires SysInv(s)
    ensures |s.owners| == |s.reg|
  {
  }

  // ---------------------------------------------------------------------------------------
  // Enumeration
  // ---------------------------------------------------------------------------------------

  /** One query of an enumeration: the state in which it is served, where it waits there, and
      whatever the buffers hold. */
  datatype Query = Query(s: Sys, i: nat, iodata: MessageBuffer, pol: Policy, stack: StackBuffer, base: u64)

  /** The query asks for the n-th name, and the caller may list. */
  ghost predicate AsksList(q: Query, n: nat, req: u32) {
    && n < TWO32 && SysInv(q.s) && q.i < |q.s.queue|
    && var r := q.s.queue[q.i].r;
    && ValidOps(ListOps(n, req))
    && r.bytes == Request(q.iodata, ListOps(n, req)).bytes && r.offsets == Request(q.iodata, ListOps(n, req)).offsets
    && r.sec.txn.target == 0 && r.sec.txn.code == 4 && r.sec.txn.flags % 2 == 0
    && (q.pol.mayList)(Caller(r.sec.txn.senderEuid, r.sec.txn.senderPid, r.sec.secctx))
  }

  /** The reply to a query, and what the client reads in it. */
  ghost function Answer(q: Query): Bc
    requires q.i < |q.s.queue|
  {
    var o := Serve(q.s, q.i, q.pol, q.stack);
    if Answered(o) then Reply(o) else EnterLooper
  }

  ghost function Text(q: Query): Option<seq<u16>>
    requires q.i < |q.s.queue|
  {
    var a := Answer(q);
    if a.SendReply? then GetString16(Delivered(q.base, a.bytes, [], [])).2 else None
  }

  const THE_END: Bc := SendReply(8, [255, 255, 255, 255], [])

  /** An enumeration: query n asks for the n-th match; between a query and the next anything may
      happen to the manager; all are answered but the last, which is told the end. */
  ghost predicate Enumeration(qs: seq<Query>, between: seq<seq<Stimulus>>, req: u32) {
    && |qs| > 0 && |between| == |qs| - 1
    && (forall n :: 0 <= n < |qs| ==> AsksList(qs[n], n, req))
    && (forall n :: 0 <= n < |between| ==>
          && Serve(qs[n].s, qs[n].i, qs[n].pol, qs[n].stack).Completed?
          && RunSys(Serve(qs[n].s, qs[n].i, qs[n].pol, qs[n].stack).sys, between[n]) == Some(qs[n + 1].s))
    && (forall n :: 0 <= n < |between| ==> Answer(qs[n]) != THE_END)
    && Answer(qs[|qs| - 1]) == THE_END
  }

  /** The registry only grows, over every run. */
  lemma RunGrown(s: Sys, ys: seq<Stimulus>)
    requires SysInv(s) && RunSys(s, ys).Some?
    ensures SysInv(RunSys(s, ys).value) && Grown(s.reg, RunSys(s, ys).value.reg)
  {
    RunsFrom(s, ys);
    HistoryGrows(s, ys);
    hide RunSys;
    var t := RunSys(s, ys).value;
    RunKeeps(t.es, |s.es|);
    assert t.es[..|s.es|] == s.es;
  }

  /** What a query gets: the walk's record, or the end. */
  lemma QueryAnswered(q: Query, n: nat, req: u32)
    requires AsksList(q, n, req)
    ensures Serve(q.s, q.i, q.pol, q.stack).Completed? && Serve(q.s, q.i, q.pol, q.stack).sys.reg == q.s.reg
    ensures SysInv(Serve(q.s, q.i, q.pol, q.stack).sys)
    ensures var id := Walk(q.s.reg, n, req);
            && (Answer(q) == THE_END <==> id.None?)
            && (id.Some? ==>
                  var r := PutString16(ReplyBuffer(q.stack), Some(AtId(q.s.reg, id.value).name + [0]));
                  Answer(q) == SendReply(0, r.bytes, r.offsets))
  {
    hide SysInv, Serve, Request, ListOps, Delivered, MessageWires, Header, ReplyBuffer, PutString16, Walk;
    hide Le32, Manage, Requested, Without;
    var w, stack := q.s.queue[q.i], ReplyBuffer(q.stack);
    QueuedMessage(q.s, q.i);
    assert w.wires == [] by { ListRead(q.iodata, n, req, 0); }
    ListServed(q.iodata, n, req, Buffer(w), q.pol, q.s.reg, w.r.sec, stack);
    NoRegistration(w.r.sec, w.msg);
    MinusOne();
    IdleService(q.s, q.i, q.pol, q.stack, Manage(q.pol, q.s.reg, w.r.sec, w.msg, stack));
  }

  lemma NoRegistration(t: TxnSec, msg: In)
    requires t.txn.code == 4
    ensures Requested(t, msg) == None
  {
    hide Header;
  }

  lemma TextOf(q: Query, n: nat, req: u32)
    requires AsksList(q, n, req) && Walk(q.s.reg, n, req).Some?
    requires var name := AtId(q.s.reg, Walk(q.s.reg, n, req).value).name;
             0 !in name && 1 <= |name| <= 109
    ensures Text(q) == Some(AtId(q.s.reg, Walk(q.s.reg, n, req).value).name + [0])
  {
    QueryAnswered(q, n, req);
    var name := AtId(q.s.reg, Walk(q.s.reg, n, req).value).name;
    hide Serve, Answer, AsksList, Delivered, PutString16, GetString16, Walk, StrLen;
    ListDecoded(q.stack, name, q.base);
    CName(name);
    assert name[..|name|] == name;
  }

  /** Enumeration under concurrent registration, down to what the client reads: whatever happens
      to the manager in between, the client is told the end only after it has read the name of
      every matching record present at its first query, for every name without a NUL that has at
      most 109 units. */
  lemma EverythingIsListed(qs: seq<Query>, between: seq<seq<Stimulus>>, req: u32, id: nat) returns (n: nat)
    requires Enumeration(qs, between, req)
    requires id < |qs[0].s.reg| && Matches(AtId(qs[0].s.reg, id), req)
    requires var name := AtId(qs[0].s.reg, id).name; 0 !in name && |name| <= 109
    ensures n < |between| && AsksList(qs[n], n, req) && Text(qs[n]) == Some(AtId(qs[0].s.reg, id).name + [0])
  {
    hide Serve, AsksList, RunSys, Answer, Matches, Text, Walk, SysInv;
    var regs := seq(|qs|, k requires 0 <= k < |qs| => qs[k].s.reg);
    forall k | 0 <= k < |qs| ensures qs[k].i < |qs[k].s.queue| {
      Listable(qs[k], k, req);
    }
    forall k | 0 <= k < |qs|
      ensures Walk(regs[k], k, req).None? <==> Answer(qs[k]) == THE_END
      ensures k < |between| ==> Grown(regs[k], regs[k + 1])
    {
      Listable(qs[k], k, req);
      QueryAnswered(qs[k], k, req);
      if k < |between| {
        assert RunSys(Serve(qs[k].s, qs[k].i, qs[k].pol, qs[k].stack).sys, between[k]) == Some(qs[k + 1].s);
        RunGrown(Serve(qs[k].s, qs[k].i, qs[k].pol, qs[k].stack).sys, between[k]);
      }
    }
    assert Enumerates(regs, req);
    n := EnumerationComplete(regs, req, id);
    GrownFromStart(regs, n);
    var r := AtId(qs[n].s.reg, id);
    assert r.name == AtId(qs[0].s.reg, id).name;
    Listable(qs[0], 0, req);
    NamesNotEmpty(qs[0].s, id);
    TextOf(qs[n], n, req);
  }

  /** With no new record between the queries, whatever else happens, the client gets exactly the
      matching records, each once, newest first, and reads the name of each that can be read. */
  lemma ListedExactly(qs: seq<Query>, between: seq<seq<Stimulus>>, req: u32)
    requires Enumeration(qs, between, req)
    requires forall n :: 0 <= n < |qs| ==> |qs[n].s.reg| == |qs[0].s.reg|
    ensures var reg, ids := qs[0].s.reg, MatchIds(qs[0].s.reg, req);
            && |between| == |ids|
            && forall n :: 0 <= n < |ids| ==>
                 && ids[n] < |reg| && AsksList(qs[n], n, req)
                 && Walk(qs[n].s.reg, n, req) == Some(ids[n])
                 && (0 !in AtId(reg, ids[n]).name && |AtId(reg, ids[n]).name| <= 109 ==>
                       Text(qs[n]) == Some(AtId(reg, ids[n]).name + [0]))
  {
    hide Serve, AsksList, RunSys, Answer, Text, Walk, SysInv, MatchIds;
    var reg, ids, m := qs[0].s.reg, MatchIds(qs[0].s.reg, req), |between|;
    forall k | 0 <= k < |qs| ensures qs[k].i < |qs[k].s.queue| {
      Listable(qs[k], k, req);
    }
    forall k | 0 <= k < |qs|
      ensures Grown(reg, qs[k].s.reg)
      ensures Walk(qs[k].s.reg, k, req) == if k < |ids| then Some(ids[k]) else None
      ensures Answer(qs[k]) == THE_END <==> k >= |ids|
    {
      GrownSince(qs, between, req, k);
      SameMatches(reg, qs[k].s.reg, req);
      WalkIsNth(qs[k].s.reg, k, req);
      QueryAnswered(qs[k], k, req);
    }
    assert Answer(qs[m]) == THE_END;
    assert m > 0 ==> Answer(qs[m - 1]) != THE_END;
    forall n | 0 <= n < |ids|
      ensures ids[n] < |reg| && AsksList(qs[n], n, req)
      ensures 0 !in AtId(reg, ids[n]).name && |AtId(reg, ids[n]).name| <= 109 ==>
                Text(qs[n]) == Some(AtId(reg, ids[n]).name + [0])
    {
      MatchIdsSound(reg, req, n);
      Listable(qs[0], 0, req);
      NamesNotEmpty(qs[0].s, ids[n]);
      assert AtId(qs[n].s.reg, ids[n]).name == AtId(reg, ids[n]).name;
      if 0 !in AtId(reg, ids[n]).name && |AtId(reg, ids[n]).name| <= 109 {
        TextOf(qs[n], n, req);
      }
    }
  }

  /** The list only grows from the first query to any other. */
  lemma {:induction false} GrownSince(qs: seq<Query>, between: seq<seq<Stimulus>>, req: u32, k: nat)
    requires Enumeration(qs, between, req) && k < |qs|
    ensures Grown(qs[0].s.reg, qs[k].s.reg)
    decreases k
  {
    hide Serve, AsksList, RunSys, Answer, SysInv, Grown;
    if k == 0 {
      GrownSelf(qs[0].s.reg);
    } else {
      var q := qs[k - 1];
      GrownSince(qs, between, req, k - 1);
      Listable(q, k - 1, req);
      QueryAnswered(q, k - 1, req);
      assert RunSys(Serve(q.s, q.i, q.pol, q.stack).sys, between[k - 1]) == Some(qs[k - 1 + 1].s);
      RunGrown(Serve(q.s, q.i, q.pol, q.stack).sys, between[k - 1]);
      GrownTransitive(qs[0].s.reg, q.s.reg, qs[k].s.reg);
    }
  }

  lemma GrownSelf(reg: seq<Record>)
    ensures Grown(reg, reg)
  {
  }

  lemma Listable(q: Query, n: nat, req: u32)
    requires AsksList(q, n, req)
    ensures SysInv(q.s) && q.i < |q.s.queue| && ValidOps(ListOps(n, req))
  {
  }

  lemma NamesNotEmpty(s: Sys, id: nat)
    requires SysInv(s) && id < |s.reg|
    ensures |AtId(s.reg, id).name| >= 1
  {
    RunKeeps(s.es, 0);
  }
}
