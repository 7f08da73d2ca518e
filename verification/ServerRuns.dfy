/** binder_loop with the service manager's handler, over whole scripts of driver rounds, is a run
    of the system. */
module ServerRuns {
  import opened Words
  import opened Writer
  import opened Reader
  import opened Commands
  import opened Parser
  import opened Rounds
  import opened Registry
  import opened Manager
  import opened Driver
  import opened System

  /** The manager with the number of requests it has served so far, and what may differ from one
      request to the next: the answers of the security policy and of the allocator, and what the
      stack holds. */
  datatype Server = Server(reg: seq<Record>, served: nat)

  datatype Surroundings = Surroundings(pols: nat -> Policy, stacks: nat -> StackBuffer)

  /** The manager's handler in its surroundings. */
  function Attend(env: Surroundings, w: Server, t: TxnSec, msg: In, reply: Out): Handled<Server> {
    var h := Manage((env.pols)(w.served), w.reg, t, msg, reply);
    Handled(Server(h.world, w.served + 1), h.log, h.reply, h.status)
  }

  function ServerHooks(env: Surroundings): Hooks<Server> {
    Hooks(Some((w, t, msg, reply) => Attend(env, w, t, msg, reply)),
          (w: Server, k) => (w.(reg := Registry.Death(w.reg, k).0), Registry.Death(w.reg, k).1),
          env.stacks)
  }

  /** How many requests a list of tasks serves. */
  function Services(ts: seq<Task>): nat {
    if ts == [] then 0 else (if ts[0].Service? then 1 else 0) + Services(ts[1..])
  }

  /** The commands a step writes. */
  ghost function StepLog(s: Sys, x: Stimulus): seq<Bc> {
    match x
    case Arrives(_) => []
    case Dies(k) => ApplyEvent(s.reg, DeathEvent(k)).1
    case Serves(i, pol, stack) =>
      if i < |s.queue| && Serve(s, i, pol, stack).Completed? then Serve(s, i, pol, stack).log else []
  }

  /** The commands a run writes, each executed by the driver in its step. */
  ghost function RunLog(s: Sys, xs: seq<Stimulus>): seq<Bc>
    decreases |xs|
  {
    if xs == [] || React(s, xs[0]).None? then []
    else StepLog(s, xs[0]) + RunLog(React(s, xs[0]).value, xs[1..])
  }

  lemma {:induction false} RunConcat(s: Sys, xs: seq<Stimulus>, ys: seq<Stimulus>)
    requires RunSys(s, xs).Some?
    ensures RunSys(s, xs + ys) == RunSys(RunSys(s, xs).value, ys)
    ensures RunLog(s, xs + ys) == RunLog(s, xs) + RunLog(RunSys(s, xs).value, ys)
    decreases |xs|
  {
    hide React, StepLog;
    if xs == [] {
      assert xs + ys == ys;
    } else {
      assert (xs + ys)[0] == xs[0] && (xs + ys)[1..] == xs[1..] + ys;
      RunConcat(React(s, xs[0]).value, xs[1..], ys);
    }
  }

  /** One task of a round is a step: a death notice is announced; a transaction is one that waits,
      whose message lies in the mapped area, served in the surroundings of its turn. */
  ghost predicate Enacts(s: Sys, area: seq<byte>, log: seq<Bc>, served: nat, t: Task, x: Stimulus,
                         env: Surroundings) {
    match t
    case Notice(k) => x == Dies(k)
    case Service(sec) =>
      && x.Serves? && x.i < |s.queue| && x.pol == (env.pols)(served) && x.stack == (env.stacks)(|log|)
      && s.queue[x.i].r.sec == sec && InRange(sec.txn, |area|) && FromTxn(area, sec.txn) == s.queue[x.i].msg
  }

  /** A round's tasks are steps, one for one. */
  ghost predicate TasksEnacted(s: Sys, area: seq<byte>, log: seq<Bc>, served: nat, ts: seq<Task>,
                               xs: seq<Stimulus>, env: Surroundings)
    decreases |ts|
  {
    if ts == [] then xs == []
    else
      && xs != [] && Enacts(s, area, log, served, ts[0], xs[0], env) && React(s, xs[0]).Some?
      && TasksEnacted(React(s, xs[0]).value, area, log + StepLog(s, xs[0]), served + Services([ts[0]]),
                      ts[1..], xs[1..], env)
  }

  /** One task, performed. */
  lemma PerformOne<S>(hooks: Hooks<S>, area: seq<byte>, world: S, log: seq<Bc>, t: Task)
    requires hooks.func.Some? && (t.Service? ==> InRange(t.sec.txn, |area|))
    ensures t.Notice? ==>
              var (w, l) := (hooks.death)(world, t.cookie);
              Perform(hooks, area, world, log, [t]) == (w, log + l)
    ensures t.Service? ==>
              var sec := t.sec;
              var h := (hooks.func.value)(world, sec, FromTxn(area, sec.txn), Fresh((hooks.stack)(|log|), REPLY_SLOTS));
              Perform(hooks, area, world, log, [t]) == (h.world, log + ServiceLog(sec.txn, h))
  {
    hide FromTxn, Fresh, ServiceLog;
    assert [t][1..] == [];
  }

  lemma ServerPerforms(env: Surroundings, area: seq<byte>, w: Server, log: seq<Bc>, t: Task)
    requires t.Service? ==> InRange(t.sec.txn, |area|)
    ensures t.Notice? ==>
              var r := Registry.Death(w.reg, t.cookie);
              Perform(ServerHooks(env), area, w, log, [t]) == (w.(reg := r.0), log + r.1)
    ensures t.Service? ==>
              var h := Attend(env, w, t.sec, FromTxn(area, t.sec.txn), Fresh((env.stacks)(|log|), REPLY_SLOTS));
              Perform(ServerHooks(env), area, w, log, [t]) == (h.world, log + ServiceLog(t.sec.txn, h))
  {
    PerformOne(ServerHooks(env), area, w, log, t);
    hide Perform, Attend, Registry.Death, Fresh, FromTxn, ServiceLog;
  }

  lemma TaskRuns(s: Sys, area: seq<byte>, log: seq<Bc>, served: nat, t: Task, x: Stimulus, env: Surroundings)
    requires Enacts(s, area, log, served, t, x, env) && React(s, x).Some?
    requires t.Service? ==> InRange(t.sec.txn, |area|)
    ensures Perform(ServerHooks(env), area, Server(s.reg, served), log, [t])
         == (Server(React(s, x).value.reg, served + Services([t])), log + StepLog(s, x))
  {
    ServerPerforms(env, area, Server(s.reg, served), log, t);
    OneService(t);
    hide Perform, ServerHooks, Services, React, StepLog, ServiceLog, FromTxn, Attend, Fresh;
    match t
    case Notice(k) => Announced(s, k);
    case Service(sec) => Attended(s, area, served, sec, x, env);
  }

  lemma OneService(t: Task)
    ensures Services([t]) == if t.Service? then 1 else 0
  {
    assert [t][1..] == [];
  }

  /** The death callback does what the system's step for the notice does. */
  lemma Announced(s: Sys, k: u64)
    requires React(s, Dies(k)).Some?
    ensures Registry.Death(s.reg, k) == (React(s, Dies(k)).value.reg, StepLog(s, Dies(k)))
  {
    hide ExecAll;
  }

  /** The handler in its turn does what the service of the waiting request does. */
  lemma Attended(s: Sys, area: seq<byte>, served: nat, sec: TxnSec, x: Stimulus, env: Surroundings)
    requires x.Serves? && x.i < |s.queue| && x.pol == (env.pols)(served) && React(s, x).Some?
    requires s.queue[x.i].r.sec == sec && InRange(sec.txn, |area|) && FromTxn(area, sec.txn) == s.queue[x.i].msg
    ensures var h := Attend(env, Server(s.reg, served), sec, FromTxn(area, sec.txn), Fresh(x.stack, REPLY_SLOTS));
            h.world == Server(React(s, x).value.reg, served + 1) && ServiceLog(sec.txn, h) == StepLog(s, x)
  {
    ServeIsManage(s, x.i, x.pol, x.stack);
    FreshReply(x.stack);
    hide Manage, Serve, FromTxn, ServiceLog, ReplyBuffer, Fresh;
    var h := Manage(x.pol, s.reg, sec, s.queue[x.i].msg, ReplyBuffer(x.stack));
    SameLog(sec.txn, h, Server(h.world, served + 1));
  }

  lemma SameLog<S, T>(t: Txn, h: Handled<S>, w: T)
    ensures ServiceLog(t, Handled(w, h.log, h.reply, h.status)) == ServiceLog(t, h)
  {
  }

  lemma FreshReply(stack: StackBuffer)
    ensures ReplyBuffer(stack) == Fresh(stack, REPLY_SLOTS)
  {
  }

  lemma ServeIsManage(s: Sys, i: nat, pol: Policy, stack: StackBuffer)
    requires i < |s.queue| && Serve(s, i, pol, stack).Completed?
    ensures var q, o := s.queue[i], Serve(s, i, pol, stack);
            var h := Manage(pol, s.reg, q.r.sec, q.msg, ReplyBuffer(stack));
            o.sys.reg == h.world && o.log == ServiceLog(q.r.sec.txn, h)
  {
    ManageIsEvent(pol, s.reg, s.queue[i].r.sec, s.queue[i].msg, ReplyBuffer(stack));
    hide Manage, Requested, ExecAll, ServiceLog, ReplyBuffer, ApplyEvent, Accepts;
  }

  lemma PerformNext<S>(hooks: Hooks<S>, area: seq<byte>, world: S, log: seq<Bc>, ts: seq<Task>)
    requires ts != [] && forall t | t in ts :: t.Service? ==> InRange(t.sec.txn, |area|)
    ensures ts[0] in ts && forall t | t in ts[1..] :: t.Service? ==> InRange(t.sec.txn, |area|)
    ensures var (w, l) := Perform(hooks, area, world, log, [ts[0]]);
            Perform(hooks, area, world, log, ts) == Perform(hooks, area, w, l, ts[1..])
  {
    assert ts[0] in ts && [ts[0]][1..] == [];
    hide FromTxn, Fresh, ServiceLog;
  }

  /** The tasks of a round, performed by the parser, are the run of their steps. */
  lemma {:induction false} TasksRun(s: Sys, area: seq<byte>, log: seq<Bc>, served: nat, ts: seq<Task>,
                                    xs: seq<Stimulus>, env: Surroundings)
    requires SysInv(s) && TasksEnacted(s, area, log, served, ts, xs, env)
    requires forall t | t in ts :: t.Service? ==> InRange(t.sec.txn, |area|)
    ensures RunSys(s, xs).Some? && SysInv(RunSys(s, xs).value)
    ensures Perform(ServerHooks(env), area, Server(s.reg, served), log, ts)
         == (Server(RunSys(s, xs).value.reg, served + Services(ts)), log + RunLog(s, xs))
    decreases |ts|
  {
    hide React, StepLog, SysInv, Enacts, ServerHooks, Perform;
    if ts == [] {
      NoSteps(s);
      NothingPerformed(ServerHooks(env), area, Server(s.reg, served), log);
      assert log + [] == log;
    } else {
      var t, l := React(s, xs[0]).value, StepLog(s, xs[0]);
      ReactSafe(s, xs[0]);
      PerformNext(ServerHooks(env), area, Server(s.reg, served), log, ts);
      TaskRuns(s, area, log, served, ts[0], xs[0], env);
      TasksRun(t, area, log + l, served + Services([ts[0]]), ts[1..], xs[1..], env);
      StepsNext(s, xs);
      hide TasksEnacted, RunSys, RunLog;
      assert log + l + RunLog(t, xs[1..]) == log + (l + RunLog(t, xs[1..]));
    }
  }

  lemma NothingPerformed<S>(hooks: Hooks<S>, area: seq<byte>, world: S, log: seq<Bc>)
    ensures Perform(hooks, area, world, log, []) == (world, log)
  {
  }

  lemma StepsNext(s: Sys, xs: seq<Stimulus>)
    requires xs != [] && React(s, xs[0]).Some?
    ensures RunSys(s, xs) == RunSys(React(s, xs[0]).value, xs[1..])
    ensures RunLog(s, xs) == StepLog(s, xs[0]) + RunLog(React(s, xs[0]).value, xs[1..])
  {
    hide React, StepLog;
  }

  /** One turn of the loop: the requests the driver delivers while the loop waits, and the steps
      of the round's tasks. */
  datatype Scene = Scene(arrivals: seq<Req>, steps: seq<Stimulus>)

  function Arrivals(rs: seq<Req>): seq<Stimulus> {
    if rs == [] then [] else [Arrives(rs[0])] + Arrivals(rs[1..])
  }

  function Play(scenes: seq<Scene>): seq<Stimulus> {
    if scenes == [] then [] else Arrivals(scenes[0].arrivals) + scenes[0].steps + Play(scenes[1..])
  }

  lemma {:induction false} ArrivalsOnly(s: Sys, rs: seq<Req>)
    requires SysInv(s)
    ensures var t := RunSys(s, Arrivals(rs));
            t.Some? && SysInv(t.value) && t.value.reg == s.reg && RunLog(s, Arrivals(rs)) == []
    decreases |rs|
  {
    if rs != [] {
      var x := Arrives(rs[0]);
      ReactSafe(s, x);
      assert React(s, x).value.reg == s.reg by { hide Deliver; }
      hide React, SysInv;
      ArrivalsOnly(React(s, x).value, rs[1..]);
      assert Arrivals(rs)[1..] == Arrivals(rs[1..]);
    }
  }

  /** A turn of the loop is a scene: its transactions are waiting requests, its notices deaths. */
  ghost predicate TurnEnacted(s: Sys, r: Round, log: seq<Bc>, served: nat, scene: Scene, env: Surroundings) {
    var t := RunSys(s, Arrivals(scene.arrivals));
    && t.Some?
    && if r.ok then TasksEnacted(t.value, r.area, log, served, Tasks(r.cs), scene.steps, env) else scene.steps == []
  }

  /** A script of rounds is a play, up to the round that ends the loop. */
  ghost predicate ScriptEnacted(s: Sys, size: nat, log: seq<Bc>, served: nat, rounds: seq<Round>,
                                scenes: seq<Scene>, env: Surroundings)
    requires ValidRounds(rounds, size)
    decreases |rounds|
  {
    if rounds == [] then scenes == []
    else
      assert rounds[0] in rounds;
      && scenes != [] && TurnEnacted(s, rounds[0], log, served, scenes[0], env)
      && var p := Turn(ServerHooks(env), rounds[0], Server(s.reg, served), log);
      if p.r <= 0 then scenes[1..] == []
      else
        var next := RunSys(s, Arrivals(scenes[0].arrivals) + scenes[0].steps);
        next.Some? && ScriptEnacted(next.value, size, p.log, p.world.served, rounds[1..], scenes[1..], env)
  }

  lemma TurnRuns(s: Sys, r: Round, log: seq<Bc>, served: nat, scene: Scene, env: Surroundings)
    requires SysInv(s) && AllFormed(r.cs, |r.area|) && TurnEnacted(s, r, log, served, scene, env)
    ensures var p := Turn(ServerHooks(env), r, Server(s.reg, served), log);
            var xs := Arrivals(scene.arrivals) + scene.steps;
            var t := RunSys(s, xs);
            && t.Some? && SysInv(t.value) && p.world.reg == t.value.reg && p.log == log + RunLog(s, xs)
  {
    hide SysInv, React, ServerHooks, RunLog, RunSys, Turn, Perform, TasksEnacted, Tasks, AllFormed;
    var arrivals := Arrivals(scene.arrivals);
    ArrivalsOnly(s, scene.arrivals);
    var t := RunSys(s, arrivals).value;
    RunConcat(s, arrivals, scene.steps);
    TurnPerforms(ServerHooks(env), r, Server(s.reg, served), log);
    if r.ok {
      TasksRun(t, r.area, log, served, Tasks(r.cs), scene.steps, env);
    } else {
      NoSteps(t);
    }
    assert log + [] == log && [] + RunLog(t, scene.steps) == RunLog(t, scene.steps);
  }

  lemma NoSteps(s: Sys)
    ensures RunSys(s, []) == Some(s) && RunLog(s, []) == []
  {
  }

  /** The server loop over runs: binder_loop with the service manager's handler, over any script
      whose transactions are waiting requests and whose notices are deaths, with requests arriving
      between the rounds, ends with the registry of the run of the system that the script plays,
      and has written exactly the commands that the driver executed in that run. */
  lemma {:induction false} LoopIsRun(s: Sys, size: nat, log: seq<Bc>, served: nat, rounds: seq<Round>,
                                     scenes: seq<Scene>, env: Surroundings)
    requires SysInv(s) && ValidRounds(rounds, size) && ScriptEnacted(s, size, log, served, rounds, scenes, env)
    ensures var run := Looping(ServerHooks(env), size, Server(s.reg, served), log, rounds);
            var t := RunSys(s, Play(scenes));
            && t.Some? && SysInv(t.value)
            && run.world.reg == t.value.reg && run.log == log + RunLog(s, Play(scenes))
    decreases |rounds|
  {
    hide SysInv, React, ServerHooks, Turn, RunLog, RunSys, TurnEnacted, ValidRounds, AllFormed;
    if rounds == [] {
      NoSteps(s);
      assert log + [] == log;
    } else {
      RoundFormed(rounds, size);
      TurnRuns(s, rounds[0], log, served, scenes[0], env);
      var p := Turn(ServerHooks(env), rounds[0], Server(s.reg, served), log);
      var xs := Arrivals(scenes[0].arrivals) + scenes[0].steps;
      var t := RunSys(s, xs).value;
      RunConcat(s, xs, Play(scenes[1..]));
      if p.r > 0 {
        LoopIsRun(t, size, p.log, p.world.served, rounds[1..], scenes[1..], env);
        hide Looping, ScriptEnacted, Play;
        Regrouped(log, RunLog(s, xs), RunLog(t, Play(scenes[1..])));
      } else {
        NoSteps(t);
        assert RunLog(s, xs) + [] == RunLog(s, xs);
      }
    }
  }

  lemma Regrouped(a: seq<Bc>, b: seq<Bc>, c: seq<Bc>)
    ensures a + b + c == a + (b + c)
  {
  }
}
