/** What the death of an object does to the registry: which records its callbacks name, in terms
    of the requests the driver holds and of the run that made them. */
module Deaths {
  import opened Words
  import opened Commands
  import opened Parser
  import opened Registry
  import opened RegistryLaws
  import opened Manager
  import opened Driver
  import opened System

  /** The cookies of an object's death: the requests the driver holds for the manager's handle. */
  ghost function Callbacks(s: Sys, n: Node): seq<u64> {
    var h := HandleFor(s.mgr, n);
    if h.None? then [] else Held(s.mgr, h.value)
  }

  ghost predicate Knows(s: Sys, n: Node) {
    HandleFor(s.mgr, n).Some?
  }

  lemma CallbacksAre(s: Sys, n: Node, h: u32)
    requires ValidView(s.mgr) && h in s.mgr.node && s.mgr.node[h] == n
    ensures HandleFor(s.mgr, n) == Some(h) && Callbacks(s, n) == Held(s.mgr, h)
  {
  }

  // ---------------------------------------------------------------------------------------
  // Requests through the manager's commands
  // ---------------------------------------------------------------------------------------

  lemma AskedTwice(single: bool, held: seq<u64>, a: seq<u64>, b: seq<u64>)
    requires single ==> |held| <= 1
    ensures Asked(single, Asked(single, held, a), b) == Asked(single, held, a + b)
  {
    assert held + a + b == held + (a + b);
  }

  lemma {:induction false} DropAllKeeps(v: View, hs: seq<u32>)
    requires ValidView(v) && DropAll(v, hs).Some?
    ensures var w := DropAll(v, hs).value;
            && ValidView(w) && Submap(w.node, v.node) && w.single == v.single
            && forall x | x in w.refs :: Held(w, x) == Held(v, x)
    decreases |hs|
  {
    if hs != [] {
      var d := Drop(v, hs[0]);
      DropEffect(v, hs[0]);
      hide Drop;
      DropAllKeeps(d, hs[1..]);
      var w := DropAll(v, hs).value;
      SubmapTransitive(w.node, d.node, v.node);
      forall x | x in w.refs ensures Held(w, x) == Held(v, x) {
        assert x in w.node && x in d.node;
      }
    }
  }

  lemma FreeKeeps(v: View, b: u64)
    requires ValidView(v) && Exec(v, FreeBuffer(b)).Some?
    ensures var w := Exec(v, FreeBuffer(b)).value;
            && ValidView(w) && Submap(w.node, v.node) && w.single == v.single
            && forall x | x in w.refs :: Held(w, x) == Held(v, x)
  {
    var u := v.(pins := v.pins - {b});
    assert ValidView(u) && forall x :: Held(u, x) == Held(v, x);
    DropAllKeeps(u, v.pins[b]);
  }

  lemma SubmapSelf(m: map<u32, Node>)
    ensures Submap(m, m)
  {
  }

  lemma NothingMore(v: View)
    requires ValidView(v)
    ensures forall x :: Asked(v.single, Held(v, x), []) == Held(v, x)
  {
  }

  lemma LinkedOne(c: Bc, x: u32)
    ensures LinkedTo([c], x) == if c.RequestDeath? && c.handle == x then [c.cookie] else []
  {
    LinkedNext(c, [], x);
    NoLinks(x);
    assert [c] + [] == [c];
  }

  lemma ExecKeeps(v: View, c: Bc)
    requires ValidView(v) && Exec(v, c).Some?
    ensures var w := Exec(v, c).value;
            && ValidView(w) && Submap(w.node, v.node) && w.single == v.single
            && forall x | x in w.refs :: Held(w, x) == Asked(v.single, Held(v, x), LinkedTo([c], x))
  {
    hide LinkedTo, Asked, DropAll, ValidView, Submap;
    SubmapSelf(v.node);
    NothingMore(v);
    forall x ensures LinkedTo([c], x) == if c.RequestDeath? && c.handle == x then [c.cookie] else [] {
      LinkedOne(c, x);
    }
    match c {
      case Acquire(h) => RaiseEffect(v, h);
      case Release(h) => DropEffect(v, h);
      case RequestDeath(h, k) => HoldEffect(v, h, k); hide Hold;
      case FreeBuffer(b) => FreeKeeps(v, b);
      case EnterLooper =>
      case SendReply(_, _, _) =>
    }
  }

  lemma HeldBound(v: View)
    requires ValidView(v)
    ensures v.single ==> forall x :: |Held(v, x)| <= 1
  {
  }

  /** A handle that survives a log keeps its requests and gains those of the log. */
  lemma {:induction false} ExecHeld(v: View, log: seq<Bc>)
    requires ValidView(v) && ExecAll(v, log).Some?
    ensures var w := ExecAll(v, log).value;
            && ValidView(w) && Submap(w.node, v.node) && w.single == v.single
            && forall x | x in w.refs :: Held(w, x) == Asked(v.single, Held(v, x), LinkedTo(log, x))
    decreases |log|
  {
    if log == [] {
      forall x ensures LinkedTo(log, x) == [] && Asked(v.single, Held(v, x), []) == Held(v, x) {
      }
    } else {
      var u := Exec(v, log[0]).value;
      ExecKeeps(v, log[0]);
      HeldBound(v);
      hide Exec, Held, ValidView, Asked, LinkedTo;
      ExecHeld(u, log[1..]);
      var w := ExecAll(v, log).value;
      SubmapTransitive(w.node, u.node, v.node);
      SameKeys(w);
      SameKeys(u);
      hide ExecAll;
      forall x | x in w.refs ensures Held(w, x) == Asked(v.single, Held(v, x), LinkedTo(log, x)) {
        assert x in u.node;
        AskedTwice(v.single, Held(v, x), LinkedTo([log[0]], x), LinkedTo(log[1..], x));
        LinkedFrom(log, x);
      }
    }
  }

  lemma SameKeys(v: View)
    requires ValidView(v)
    ensures v.node.Keys == v.refs.Keys
  {
  }

  lemma LinkedFrom(log: seq<Bc>, h: u32)
    requires log != []
    ensures LinkedTo(log, h) == LinkedTo([log[0]], h) + LinkedTo(log[1..], h)
  {
    LinkedNext(log[0], log[1..], h);
    LinkedNext(log[0], [], h);
    NoLinks(h);
    assert [log[0]] + log[1..] == log && [log[0]] + [] == [log[0]];
  }

  lemma {:induction false} LinkedConcat(a: seq<Bc>, b: seq<Bc>, h: u32)
    ensures LinkedTo(a + b, h) == LinkedTo(a, h) + LinkedTo(b, h)
  {
    if a == [] {
      assert a + b == b;
    } else {
      assert (a + b)[1..] == a[1..] + b;
      LinkedConcat(a[1..], b, h);
    }
  }

  // ---------------------------------------------------------------------------------------
  // Requests through a step
  // ---------------------------------------------------------------------------------------

  /** The cookie a step asks to be told of an object's death with: that of the record the step
      registers for the object, if it registers one. */
  function Links(s: Sys, x: Stimulus, n: Node): (ks: seq<u64>)
    ensures |ks| <= 1
  {
    if x.Serves? && x.i < |s.queue| then
      var a := Requested(s.queue[x.i].r.sec, s.queue[x.i].msg);
      if a.Some? && Accepts(x.pol, s.reg, a.value) && Subject(s.mgr, a.value.handle) == n
      then [Cookie(Target(s.reg, a.value))] else []
    else []
  }

  lemma EventLinks(reg: seq<Record>, e: Event, h: u32)
    requires WellFormedReg(reg)
    ensures LinkedTo(ApplyEvent(reg, e).1, h)
         == if Accepted(reg, e) && e.args.handle == h then [Cookie(Target(reg, e.args))] else []
  {
    EventIsEffect(reg, e);
    if Accepted(reg, e) {
      var id, g := Target(reg, e.args), e.args.handle;
      LinkLinks(id, g, h);
      if id < |reg| {
        OverriddenIs(reg, id, g);
        var l := if AtId(reg, id).handle != 0 then [Release(AtId(reg, id).handle)] else [];
        LinkedConcat(l, Link(id, g), h);
        ReleaseLinks(l, h);
      }
    } else if e.DeathEvent? {
      ReleaseLinks(ApplyEvent(reg, e).1, h);
    }
  }

  lemma LinkLinks(id: nat, g: u32, h: u32)
    ensures LinkedTo(Link(id, g), h) == if g == h then [Cookie(id)] else []
  {
    var d := RequestDeath(g, Cookie(id));
    LinkedNext(Acquire(g), [d], h);
    LinkedNext(d, [], h);
    NoLinks(h);
    assert Link(id, g) == [Acquire(g)] + [d] && [d] + [] == [d];
  }

  lemma ReleaseLinks(l: seq<Bc>, h: u32)
    requires |l| <= 1 && forall c | c in l :: !c.RequestDeath?
    ensures LinkedTo(l, h) == []
  {
    if l != [] {
      assert l[0] in l && l[1..] == [];
    }
  }

  lemma ServiceLinks<S>(t: Txn, h: Handled<S>, x: u32)
    ensures LinkedTo(ServiceLog(t, h), x) == LinkedTo(h.log, x)
  {
    var reply := if OneWay(t) then [] else [ReplyOf(h)];
    LinkedConcat(h.log + [FreeBuffer(t.buffer)], reply, x);
    LinkedConcat(h.log, [FreeBuffer(t.buffer)], x);
    ReleaseLinks([FreeBuffer(t.buffer)], x);
    ReleaseLinks(reply, x);
  }

  /** One step: an object the manager still has a handle for keeps its requests and gains the
      step's; an object it has none for has none. */
  lemma CallbacksStep(s: Sys, x: Stimulus, n: Node)
    requires SysInv(s) && React(s, x).Some?
    ensures var t := React(s, x).value;
            && t.mgr.single == s.mgr.single
            && Callbacks(t, n) == if Knows(t, n) then Asked(s.mgr.single, Callbacks(s, n), Links(s, x, n)) else []
  {
    ReactSafe(s, x);
    hide React, Asked;
    match x
    case Arrives(r) => ArrivalStep(s, x, n);
    case Dies(k) => DeathStep(s, x, n);
    case Serves(i, pol, stack) =>
      if i < |s.queue| {
        ServiceStep(s, x, n);
      } else {
        IdleStep(s, x, n);
      }
  }

  lemma IdleStep(s: Sys, x: Stimulus, n: Node)
    requires ValidView(s.mgr) && x.Serves? && x.i >= |s.queue|
    ensures React(s, x) == Some(s)
    ensures Asked(s.mgr.single, Callbacks(s, n), Links(s, x, n)) == Callbacks(s, n)
  {
    hide Serve;
    Unasked(s, n);
  }

  lemma Unasked(s: Sys, n: Node)
    requires ValidView(s.mgr)
    ensures Asked(s.mgr.single, Callbacks(s, n), []) == Callbacks(s, n)
    ensures !Knows(s, n) ==> Callbacks(s, n) == []
  {
  }

  lemma ArrivalStep(s: Sys, x: Stimulus, n: Node)
    requires SysInv(s) && x.Arrives? && React(s, x).Some?
    ensures var t := React(s, x).value;
            && t.mgr.single == s.mgr.single
            && Callbacks(t, n) == if Knows(t, n) then Asked(s.mgr.single, Callbacks(s, n), Links(s, x, n)) else []
  {
    Unasked(s, n);
    if Receive(s, x.r).Some? {
      var r, t := x.r, Receive(s, x.r).value;
      DeliverEffect(r.sender, r.from, MANAGER, s.mgr, r.bytes, r.offsets, r.picks, r.sec.txn.buffer);
      ReceiveSafe(s, r);
      hide MessageWires, GoodTranslation, Deliver, Asked, Outstanding, AllGenuine, Balanced, Faithful;
      hide OwnersByHistory;
      DeliveredRest(s, r);
      if Knows(t, n) {
        var h := HandleFor(t.mgr, n).value;
        CallbacksAre(t, n, h);
        if h in s.mgr.node {
          CallbacksAre(s, n, h);
        } else if Knows(s, n) {
          var g := HandleFor(s.mgr, n).value;
          assert t.mgr.node[g] == n;
          CallbacksAre(t, n, g);
        }
      }
    }
  }

  lemma DeliveredRest(s: Sys, r: Req)
    requires ValidView(s.mgr) && Receive(s, r).Some?
    ensures var t := Receive(s, r).value;
            Submap(s.mgr.node, t.mgr.node) && t.mgr.deaths == s.mgr.deaths && t.mgr.single == s.mgr.single
  {
    DeliverEffect(r.sender, r.from, MANAGER, s.mgr, r.bytes, r.offsets, r.picks, r.sec.txn.buffer);
    hide MessageWires, Deliver, Meant;
  }

  /** Commands executed: what an object's requests become. */
  lemma ExecStep(s: Sys, t: Sys, log: seq<Bc>, n: Node, ks: seq<u64>)
    requires ValidView(s.mgr) && ExecAll(s.mgr, log) == Some(t.mgr)
    requires forall h | h in s.mgr.node && s.mgr.node[h] == n :: LinkedTo(log, h) == ks
    ensures t.mgr.single == s.mgr.single
    ensures Callbacks(t, n) == if Knows(t, n) then Asked(s.mgr.single, Callbacks(s, n), ks) else []
  {
    ExecHeld(s.mgr, log);
    hide ExecAll, Asked;
    if Knows(t, n) {
      var h := HandleFor(t.mgr, n).value;
      CallbacksAre(t, n, h);
      CallbacksAre(s, n, h);
    }
  }

  lemma DeathStep(s: Sys, x: Stimulus, n: Node)
    requires SysInv(s) && x.Dies? && React(s, x).Some?
    ensures var t := React(s, x).value;
            && t.mgr.single == s.mgr.single
            && Callbacks(t, n) == if Knows(t, n) then Asked(s.mgr.single, Callbacks(s, n), Links(s, x, n)) else []
  {
    var t, e := React(s, x).value, DeathEvent(x.cookie);
    RunKeeps(s.es, 0);
    var log := ApplyEvent(s.reg, e).1;
    assert ExecAll(s.mgr, log) == Some(t.mgr);
    hide ExecAll, ApplyEvent, React, Callbacks, Asked;
    forall h ensures LinkedTo(log, h) == [] {
      EventLinks(s.reg, e, h);
    }
    ExecStep(s, t, log, n, []);
  }

  lemma ServiceStep(s: Sys, x: Stimulus, n: Node)
    requires SysInv(s) && x.Serves? && x.i < |s.queue| && React(s, x).Some?
    ensures var t := React(s, x).value;
            && t.mgr.single == s.mgr.single
            && Callbacks(t, n) == if Knows(t, n) then Asked(s.mgr.single, Callbacks(s, n), Links(s, x, n)) else []
  {
    var q, t := s.queue[x.i], React(s, x).value;
    var h := Manage(x.pol, s.reg, q.r.sec, q.msg, ReplyBuffer(x.stack));
    var log := ServiceLog(q.r.sec.txn, h);
    ServedBy(s, x.i, x.pol, x.stack);
    hide ExecAll, ServiceLog, React, Serve, Callbacks, Asked, Manage, ReplyBuffer, Links;
    forall g | g in s.mgr.node && s.mgr.node[g] == n ensures LinkedTo(log, g) == Links(s, x, n) {
      ServiceLinks(q.r.sec.txn, h, g);
      HandlerLinks(s, x, g);
    }
    ExecStep(s, t, log, n, Links(s, x, n));
  }

  /** The requests a handler makes for a handle it may be asked about. */
  lemma HandlerLinks(s: Sys, x: Stimulus, g: u32)
    requires SysInv(s) && x.Serves? && x.i < |s.queue| && g in s.mgr.node
    ensures var q := s.queue[x.i];
            LinkedTo(Manage(x.pol, s.reg, q.r.sec, q.msg, ReplyBuffer(x.stack)).log, g) == Links(s, x, s.mgr.node[g])
  {
    hide SysInv, OneToOne, Subject, Manage, Requested, ReplyBuffer, Accepts, ApplyEvent, Target;
    hide WellFormedReg, LinkedTo, Cookie;
    var q := s.queue[x.i];
    var a := Requested(q.r.sec, q.msg);
    ManagerView(s);
    if a.Some? { RequestedIsPinned(s, x.i); }
    ManageIsEvent(x.pol, s.reg, q.r.sec, q.msg, ReplyBuffer(x.stack));
    if a.Some? {
      var e := AddEvent(x.pol, a.value);
      EventLinks(s.reg, e, g);
      if Accepted(s.reg, e) {
        AcceptedHandle(s.reg, e);
        SubjectIs(s.mgr, a.value.handle, g);
      }
    } else {
      NoLinks(g);
    }
  }

  lemma SubjectIs(v: View, h: u32, g: u32)
    requires OneToOne(v.node) && h in v.node && g in v.node
    ensures Subject(v, h) == v.node[g] <==> h == g
  {
  }

  lemma ManagerView(s: Sys)
    requires SysInv(s)
    ensures WellFormedReg(s.reg) && OneToOne(s.mgr.node)
  {
    RunKeeps(s.es, 0);
  }

  lemma AcceptedHandle(reg: seq<Record>, e: Event)
    requires Accepted(reg, e)
    ensures e.args.handle != 0
  {
  }

  lemma ServedBy(s: Sys, i: nat, pol: Policy, stack: StackBuffer)
    requires i < |s.queue| && React(s, Serves(i, pol, stack)).Some?
    ensures var t := React(s, Serves(i, pol, stack)).value;
            var q := s.queue[i];
            ExecAll(s.mgr, ServiceLog(q.r.sec.txn, Manage(pol, s.reg, q.r.sec, q.msg, ReplyBuffer(stack))))
                == Some(t.mgr)
  {
    hide Manage, Requested, ExecAll, ServiceLog, ReplyBuffer;
  }

  // ---------------------------------------------------------------------------------------
  // Requests through a run
  // ---------------------------------------------------------------------------------------

  /** The state after a run from the start. */
  ghost function State(single: bool, xs: seq<Stimulus>): Sys {
    EveryRunIsSafe(single, xs);
    RunSys(Initial(single), xs).value
  }

  lemma StateSafe(single: bool, xs: seq<Stimulus>)
    ensures SysInv(State(single, xs))
  {
    EveryRunIsSafe(single, xs);
  }

  lemma {:induction false} RunSnoc(s: Sys, xs: seq<Stimulus>, x: Stimulus)
    requires RunSys(s, xs).Some?
    ensures RunSys(s, xs + [x]) == React(RunSys(s, xs).value, x)
    decreases |xs|
  {
    hide React;
    if xs == [] {
      assert xs + [x] == [x] && [x][1..] == [];
      var n := React(s, x);
      if n.Some? { assert RunSys(n.value, []) == n; }
    } else {
      assert (xs + [x])[0] == xs[0] && (xs + [x])[1..] == xs[1..] + [x];
      RunSnoc(React(s, xs[0]).value, xs[1..], x);
    }
  }

  lemma StateStep(single: bool, xs: seq<Stimulus>, i: nat)
    requires i < |xs|
    ensures React(State(single, xs[..i]), xs[i]) == Some(State(single, xs[..i + 1]))
  {
    EveryRunIsSafe(single, xs[..i]);
    hide RunSys, React, SysInv, Initial;
    RunSnoc(Initial(single), xs[..i], xs[i]);
    assert xs[..i] + [xs[i]] == xs[..i + 1];
    EveryRunIsSafe(single, xs[..i + 1]);
  }

  /** The registrations for an object since the manager last had no handle for it. */
  ghost function Pending(single: bool, xs: seq<Stimulus>, n: Node): seq<u64>
    decreases |xs|
  {
    if xs == [] || !Knows(State(single, xs), n) then []
    else
      var m := |xs| - 1;
      Pending(single, xs[..m], n) + Links(State(single, xs[..m]), xs[m], n)
  }

  /** Over every run, the driver holds all of them, or, if it holds a single request per handle,
      the first. */
  lemma {:induction false} CallbacksArePending(single: bool, xs: seq<Stimulus>, n: Node)
    ensures State(single, xs).mgr.single == single
    ensures Callbacks(State(single, xs), n) == Asked(single, [], Pending(single, xs, n))
    decreases |xs|
  {
    if xs == [] {
      EmptyCallbacks(single, n);
    } else {
      hide State, Asked, Links, Callbacks, React, SysInv;
      var m := |xs| - 1;
      CallbacksArePending(single, xs[..m], n);
      StateStep(single, xs, m);
      assert xs[..m + 1] == xs;
      StateSafe(single, xs[..m]);
      CallbacksStep(State(single, xs[..m]), xs[m], n);
      AskedTwice(single, [], Pending(single, xs[..m], n), Links(State(single, xs[..m]), xs[m], n));
      NothingAsked(single);
    }
  }

  lemma NothingAsked(single: bool)
    ensures Asked(single, [], []) == []
  {
  }

  lemma EmptyCallbacks(single: bool, n: Node)
    ensures State(single, []).mgr.single == single && Callbacks(State(single, []), n) == []
            && Asked(single, [], []) == []
  {
  }

  /** The manager has had a handle for n after every step from i on. */
  ghost predicate KnownSince(single: bool, xs: seq<Stimulus>, n: Node, i: nat) {
    forall j: nat :: i < j <= |xs| ==> Knows(State(single, xs[..j]), n)
  }

  /** At step i the run registered the record of cookie c for n, and the manager has had a handle
      for n ever since. */
  ghost predicate LinkedSince(single: bool, xs: seq<Stimulus>, n: Node, c: u64, i: nat) {
    i < |xs| && c in Links(State(single, xs[..i]), xs[i], n) && KnownSince(single, xs, n, i)
  }

  lemma KnownLonger(single: bool, xs: seq<Stimulus>, n: Node, i: nat)
    requires i < |xs|
    ensures KnownSince(single, xs, n, i) <==> Knows(State(single, xs), n) && KnownSince(single, xs[..|xs| - 1], n, i)
  {
    hide State, Knows;
    var m := |xs| - 1;
    assert xs[..|xs|] == xs;
    forall j: nat | j <= m ensures xs[..m][..j] == xs[..j] {
    }
    if KnownSince(single, xs[..m], n, i) && Knows(State(single, xs), n) {
      forall j: nat | i < j <= |xs| ensures Knows(State(single, xs[..j]), n) {
        if j <= m { assert Knows(State(single, xs[..m][..j]), n); }
      }
    }
    if KnownSince(single, xs, n, i) {
      forall j: nat | i < j <= m ensures Knows(State(single, xs[..m][..j]), n) {
        assert Knows(State(single, xs[..j]), n);
      }
    }
  }

  lemma SinceLonger(single: bool, xs: seq<Stimulus>, n: Node, c: u64, i: nat)
    requires i < |xs|
    ensures LinkedSince(single, xs, n, c, i)
            <==> && Knows(State(single, xs), n)
                 && if i < |xs| - 1 then LinkedSince(single, xs[..|xs| - 1], n, c, i)
                    else c in Links(State(single, xs[..|xs| - 1]), xs[|xs| - 1], n)
  {
    hide State, Knows, Links;
    var m := |xs| - 1;
    KnownLonger(single, xs, n, i);
    if i < m {
      hide KnownSince;
      assert xs[..m][..i] == xs[..i] && xs[..m][i] == xs[i];
    } else {
      assert KnownSince(single, xs[..m], n, i);
    }
  }

  lemma {:induction false} PendingMeans(single: bool, xs: seq<Stimulus>, n: Node, c: u64)
    ensures c in Pending(single, xs, n) <==> exists i :: LinkedSince(single, xs, n, c, i)
    decreases |xs|
  {
    if xs == [] {
    } else if !Knows(State(single, xs), n) {
      forall i: nat ensures !LinkedSince(single, xs, n, c, i) {
        if i < |xs| { SinceLonger(single, xs, n, c, i); }
      }
    } else {
      var m: nat := |xs| - 1;
      PendingMeans(single, xs[..m], n, c);
      assert c in Pending(single, xs, n)
             <==> c in Pending(single, xs[..m], n) || c in Links(State(single, xs[..m]), xs[m], n);
      PendingStep(single, xs, xs[..m], n, c);
    }
  }

  lemma PendingStep(single: bool, xs: seq<Stimulus>, ys: seq<Stimulus>, n: Node, c: u64)
    requires xs != [] && ys == xs[..|xs| - 1] && Knows(State(single, xs), n)
    ensures (exists i: nat :: LinkedSince(single, xs, n, c, i))
            <==> (exists i: nat :: LinkedSince(single, ys, n, c, i)) || c in Links(State(single, ys), xs[|xs| - 1], n)
  {
    if i: nat :| LinkedSince(single, ys, n, c, i) {
      hide State, Links, Knows, KnownSince;
      SinceLonger(single, xs, n, c, i);
    }
    hide State, Links, Knows, KnownSince;
    if c in Links(State(single, ys), xs[|xs| - 1], n) {
      SinceLonger(single, xs, n, c, |xs| - 1);
    }
    if i: nat :| LinkedSince(single, xs, n, c, i) {
      SinceLonger(single, xs, n, c, i);
    }
  }

  // ---------------------------------------------------------------------------------------
  // The death of an object
  // ---------------------------------------------------------------------------------------

  function Notices(cookies: seq<u64>): seq<Stimulus> {
    if cookies == [] then [] else [Dies(cookies[0])] + Notices(cookies[1..])
  }

  lemma {:induction false} NoticesRun(s: Sys, cookies: seq<u64>)
    requires SysInv(s)
    ensures var t := RunSys(s, Notices(cookies));
            t.Some? && SysInv(t.value) && t.value.reg == Notify(s.reg, cookies) && t.value.owners == s.owners
    decreases |cookies|
  {
    if cookies != [] {
      DeathSafe(s, cookies[0]);
      var u := Die(s, cookies[0]).value;
      assert u.reg == Registry.Death(s.reg, cookies[0]).0 && u.owners == s.owners;
      hide SysInv, Die;
      NoticesRun(u, cookies[1..]);
      assert Notices(cookies)[1..] == Notices(cookies[1..]);
    }
  }

  lemma {:induction false} NotifyFinds(reg: seq<Record>, cookies: seq<u64>, name: Name)
    requires WellFormedReg(reg)
    ensures Find(Notify(reg, cookies), name) == Find(reg, name)
    decreases |cookies|
  {
    if cookies != [] {
      var e := DeathEvent(cookies[0]);
      EventKeeps(reg, e);
      if Find(reg, name).Some? {
        SurvivesEvent(reg, e, name, Find(reg, name).value);
      } else {
        StaysUnknown(reg, e, name);
      }
      hide WellFormedReg;
      NotifyFinds(Registry.Death(reg, cookies[0]).0, cookies[1..], name);
    }
  }

  /** The record of a live name is one the callbacks name. */
  ghost predicate Called(s: Sys, cookies: seq<u64>, name: Name) {
    var id := Find(s.reg, name);
    id.Some? && Cookie(id.value) in cookies
  }

  /** Death callbacks clear the names of the records they name, and no others. */
  lemma NoticesClear(s: Sys, cookies: seq<u64>, name: Name)
    requires SysInv(s)
    ensures var t := RunSys(s, Notices(cookies));
            t.Some? && SysInv(t.value)
            && LiveNode(t.value, name) == if Called(s, cookies, name) then None else LiveNode(s, name)
  {
    NoticesRun(s, cookies);
    RunKeeps(s.es, 0);
    hide RunSys, WellFormedReg;
    NotifyFinds(s.reg, cookies, name);
    var id := Find(s.reg, name);
    if id.Some? {
      RegSize(s.reg);
      NotifyEffect(s.reg, cookies, id.value);
    }
  }

  lemma RegSize(reg: seq<Record>)
    requires WellFormedReg(reg)
    ensures |reg| <= TWO64
  {
  }

  /** Every live record is covered by a request for its object, its own under a driver that
      holds all of them. */
  ghost predicate Covered(s: Sys) {
    && |s.owners| == |s.reg|
    && forall k :: 0 <= k < |s.reg| && AtId(s.reg, k).handle != 0 ==>
         && Callbacks(s, s.owners[k]) != []
         && (!s.mgr.single ==> Cookie(k) in Callbacks(s, s.owners[k]))
  }

  lemma KnownOwner(s: Sys, k: nat)
    requires SysInv(s) && k < |s.reg| && AtId(s.reg, k).handle != 0
    ensures |s.owners| == |s.reg| && Knows(s, s.owners[k])
  {
    assert Denotes(s.mgr, AtId(s.reg, k).handle, s.owners[k]);
  }

  /** A record live after a step is the one it registered, or was live before with the same
      object. */
  lemma OwnerAfter(s: Sys, x: Stimulus, k: nat)
    requires SysInv(s) && React(s, x).Some? && SysInv(React(s, x).value)
    requires k < |React(s, x).value.reg| && AtId(React(s, x).value.reg, k).handle != 0
    ensures var t := React(s, x).value;
            && |t.owners| == |t.reg|
            && (|| Links(s, x, t.owners[k]) == [Cookie(k)]
                || (k < |s.reg| && AtId(s.reg, k).handle != 0 && k < |s.owners| && t.owners[k] == s.owners[k]))
  {
    RunKeeps(s.es, 0);
    AsManyOwners(s);
    AsManyOwners(React(s, x).value);
    hide SysInv;
    match x
    case Arrives(r) => hide Deliver;
    case Dies(c) => OwnerAfterDeath(s, c, k);
    case Serves(i, pol, stack) =>
      if i < |s.queue| {
        OwnerAfterService(s, x, k);
      } else {
        hide Serve;
      }
  }

  lemma AsManyOwners(s: Sys)
    requires SysInv(s)
    ensures |s.owners| == |s.reg|
  {
  }

  lemma OwnerAfterDeath(s: Sys, c: u64, k: nat)
    requires WellFormedReg(s.reg) && |s.owners| == |s.reg| && Die(s, c).Some?
    requires k < |Die(s, c).value.reg| && AtId(Die(s, c).value.reg, k).handle != 0
    ensures k < |s.reg| && AtId(s.reg, k).handle != 0 && Die(s, c).value.owners == s.owners
  {
    RecordAfter(s.reg, DeathEvent(c), k);
    hide ExecAll, ApplyEvent, WellFormedReg;
  }

  lemma OwnerAfterService(s: Sys, x: Stimulus, k: nat)
    requires x.Serves? && x.i < |s.queue| && WellFormedReg(s.reg) && |s.owners| == |s.reg|
    requires React(s, x).Some? && |React(s, x).value.owners| == |React(s, x).value.reg|
    requires k < |React(s, x).value.reg| && AtId(React(s, x).value.reg, k).handle != 0
    ensures var t := React(s, x).value;
            || Links(s, x, t.owners[k]) == [Cookie(k)]
            || (k < |s.reg| && AtId(s.reg, k).handle != 0 && t.owners[k] == s.owners[k])
  {
    hide ExecAll, Manage, Requested, ServiceLog, ReplyBuffer, ApplyEvent, Accepts, WellFormedReg, Target;
    hide Cookie, Subject;
    var q, t := s.queue[x.i], React(s, x).value;
    var a := Requested(q.r.sec, q.msg);
    if a.Some? {
      var e := AddEvent(x.pol, a.value);
      RecordAfter(s.reg, e, k);
      TargetInRange(s.reg, e);
    }
  }

  lemma TargetInRange(reg: seq<Record>, e: Event)
    requires WellFormedReg(reg) && e.AddEvent?
    ensures Accepted(reg, e) ==> Target(reg, e.args) <= |reg|
    ensures Accepted(reg, e) ==>
              |ApplyEvent(reg, e).0| == if Target(reg, e.args) < |reg| then |reg| else |reg| + 1
    ensures !Accepted(reg, e) ==> ApplyEvent(reg, e).0 == reg
  {
    EventIsEffect(reg, e);
  }

  lemma CoveredStep(s: Sys, x: Stimulus)
    requires SysInv(s) && Covered(s) && React(s, x).Some?
    ensures Covered(React(s, x).value)
  {
    ReactSafe(s, x);
    var t := React(s, x).value;
    hide React, Links, Callbacks;
    assert |t.owners| == |t.reg|;
    forall k | 0 <= k < |t.reg| && AtId(t.reg, k).handle != 0
      ensures Callbacks(t, t.owners[k]) != [] && (!t.mgr.single ==> Cookie(k) in Callbacks(t, t.owners[k]))
    {
      OwnerAfter(s, x, k);
      KnownOwner(t, k);
      CallbacksStep(s, x, t.owners[k]);
    }
  }

  lemma {:induction false} AlwaysCovered(single: bool, xs: seq<Stimulus>)
    ensures Covered(State(single, xs))
    decreases |xs|
  {
    if xs != [] {
      hide State, Covered, React, SysInv;
      var m := |xs| - 1;
      AlwaysCovered(single, xs[..m]);
      StateStep(single, xs, m);
      assert xs[..m + 1] == xs;
      StateSafe(single, xs[..m]);
      CoveredStep(State(single, xs[..m]), xs[m]);
    }
  }

  /** The names that should go with an object, and no others, are gone. */
  ghost predicate JustItsNames(s: Sys, t: Sys, n: Node)
    requires |s.owners| == |s.reg| && |t.owners| == |t.reg|
  {
    forall name: Name :: LiveNode(t, name) == if LiveNode(s, name) == Some(n) then None else LiveNode(s, name)
  }

  /** The death of an object, in every reachable state and under either kind of driver: the
      names cleared are exactly those whose records the driver holds a request for. A driver that
      holds all requests clears all of the object's names; one that holds one per handle clears
      one name at most. Just the object's names are cleared if and only if theirs are exactly the
      records of live names that the driver holds a request for. */
  lemma ObjectDeath(single: bool, xs: seq<Stimulus>, n: Node)
    ensures var s := State(single, xs);
            var t := RunSys(s, Notices(Callbacks(s, n)));
            && |s.owners| == |s.reg|
            && t.Some? && SysInv(t.value) && |t.value.owners| == |t.value.reg|
            && (forall name: Name ::
                  LiveNode(t.value, name) == if Called(s, Callbacks(s, n), name) then None else LiveNode(s, name))
            && (!single ==> forall name: Name :: LiveNode(s, name) == Some(n) ==> LiveNode(t.value, name) == None)
            && (single ==> |Callbacks(s, n)| <= 1)
            && (JustItsNames(s, t.value, n) <==>
                forall name: Name :: LiveNode(s, name).Some? ==>
                  (Called(s, Callbacks(s, n), name) <==> LiveNode(s, name) == Some(n)))
  {
    var s := State(single, xs);
    var t := RunSys(s, Notices(Callbacks(s, n)));
    StateSafe(single, xs);
    NoticesRun(s, Callbacks(s, n));
    forall name: Name
      ensures LiveNode(t.value, name) == if Called(s, Callbacks(s, n), name) then None else LiveNode(s, name)
    {
      NoticesClear(s, Callbacks(s, n), name);
    }
    CallbacksArePending(single, xs, n);
    AlwaysCovered(single, xs);
  }

  /** The same in terms of the run, for a live name: it is cleared by the death of n exactly when
      its record's request is standing, that is, among those made for n since the manager last
      had no handle for it, or the first of them. */
  lemma ClearedByHistory(single: bool, xs: seq<Stimulus>, n: Node, name: Name)
    ensures var s := State(single, xs);
            && |s.owners| == |s.reg|
            && (LiveNode(s, name).Some? ==>
                  var t := RunSys(s, Notices(Callbacks(s, n)));
                  var c := Cookie(Find(s.reg, name).value);
                  && t.Some? && |t.value.owners| == |t.value.reg|
                  && (LiveNode(t.value, name).None? <==>
                      if single then Pending(single, xs, n) != [] && Pending(single, xs, n)[0] == c
                      else exists i :: LinkedSince(single, xs, n, c, i)))
  {
    var s := State(single, xs);
    StateSafe(single, xs);
    AsManyOwners(s);
    NoticesRun(s, Callbacks(s, n));
    NoticesClear(s, Callbacks(s, n), name);
    CallbacksArePending(single, xs, n);
    hide State, RunSys, SysInv, Callbacks, Pending, LinkedSince, LiveNode, Links, Cookie;
    if LiveNode(s, name).Some? {
      LiveIsFound(s, name);
      var c := Cookie(Find(s.reg, name).value);
      PendingMeans(single, xs, n, c);
    }
  }

  lemma LiveIsFound(s: Sys, name: Name)
    requires |s.owners| == |s.reg| && LiveNode(s, name).Some?
    ensures Find(s.reg, name).Some?
  {
  }
}
