/** Runs of binder_call and binder_loop over any number of driver rounds. The driver is an
    arbitrary script of rounds; a run over a script is a run of the C loop up to the point where
    the script ends. */
module Rounds {
  import opened Words
  import opened Writer
  import opened Reader
  import opened Commands
  import opened Parser

  const READ_SIZE: nat := 128

  /** One ioctl: whether it succeeded, how many bytes of the write buffer it took, and on
      success the contents of the mapped area and the commands it put in the read buffer. */
  datatype Round = Round(ok: bool, take: nat, area: seq<byte>, cs: seq<Br>, tail: Tail)

  predicate ValidRound(r: Round, size: nat) {
    |r.area| == size && AllFormed(r.cs, size) && ValidTail(r.tail) && |Stream(r.cs, r.tail)| <= 128
  }

  predicate ValidRounds(rounds: seq<Round>, size: nat) {
    forall r | r in rounds :: ValidRound(r, size)
  }

  function Min(a: nat, b: nat): nat {
    if a < b then a else b
  }

  function Takes(rounds: seq<Round>): nat {
    if rounds == [] then 0 else rounds[0].take + Takes(rounds[1..])
  }

  lemma {:induction false} TakesNext(rounds: seq<Round>, n: nat)
    requires n < |rounds|
    ensures Takes(rounds[..n + 1]) == Takes(rounds[..n]) + rounds[n].take
  {
    if n > 0 {
      TakesNext(rounds[1..], n - 1);
      assert rounds[..n + 1][1..] == rounds[1..][..n];
      assert rounds[..n][1..] == rounds[1..][..n - 1];
    }
  }

  /** How binder_call ends: still waiting when the script does, -1, or 0 with a reply. */
  datatype CallEnd = Blocked | CallFailed | Replied(reply: In)

  datatype CallRun<S> = CallRun(world: S, log: seq<Bc>, used: nat, end: CallEnd)

  /** One round: the ioctl, and on success the parse of what it read. */
  function Turn<S>(hooks: Hooks<S>, r: Round, world: S, log: seq<Bc>): Parsed<S>
    requires AllFormed(r.cs, |r.area|)
  {
    if r.ok then Parse(hooks, r.area, world, log, r.cs, r.tail) else Parsed(-1, true, world, log, None)
  }

  function Calling<S>(hooks: Hooks<S>, size: nat, world: S, log: seq<Bc>, rounds: seq<Round>): CallRun<S>
    requires ValidRounds(rounds, size)
    decreases |rounds|
  {
    if rounds == [] then CallRun(world, log, 0, Blocked)
    else
      assert rounds[0] in rounds;
      var p := Turn(hooks, rounds[0], world, log);
      if p.r == 0 then
        ZeroHasReply(hooks, rounds[0].area, world, log, rounds[0].cs, rounds[0].tail);
        CallRun(p.world, p.log, 1, Replied(p.bio.value))
      else if p.r < 0 then CallRun(p.world, p.log, 1, CallFailed)
      else
        var run := Calling(hooks, size, p.world, p.log, rounds[1..]);
        run.(used := run.used + 1)
  }

  /** A turn performs the tasks of its round, and nothing when the ioctl fails. */
  lemma TurnPerforms<S>(hooks: Hooks<S>, r: Round, world: S, log: seq<Bc>)
    requires AllFormed(r.cs, |r.area|)
    ensures forall t | t in Tasks(r.cs) :: t.Service? ==> InRange(t.sec.txn, |r.area|)
    ensures var p := Turn(hooks, r, world, log);
            (p.world, p.log) == if r.ok then Perform(hooks, r.area, world, log, Tasks(r.cs)) else (world, log)
  {
    TasksInRange(r.cs, |r.area|);
    FoldPerforms(hooks, r.area, Start(world, log), r.cs);
    hide Fold, Perform, Tasks;
  }

  /** What the rounds of a run do, one after the other: the tasks of each that succeeds. */
  ghost function PerformAll<S>(hooks: Hooks<S>, size: nat, world: S, log: seq<Bc>, rounds: seq<Round>): (S, seq<Bc>)
    requires ValidRounds(rounds, size)
    decreases |rounds|
  {
    if rounds == [] then (world, log)
    else
      assert rounds[0] in rounds;
      TasksInRange(rounds[0].cs, size);
      var (w, l) :=
        if rounds[0].ok then Perform(hooks, rounds[0].area, world, log, Tasks(rounds[0].cs)) else (world, log);
      PerformAll(hooks, size, w, l, rounds[1..])
  }

  /** One more round in front. */
  lemma PerformNext<S>(hooks: Hooks<S>, size: nat, world: S, log: seq<Bc>, rounds: seq<Round>, n: nat)
    requires ValidRounds(rounds, size) && n < |rounds|
    ensures AllFormed(rounds[0].cs, |rounds[0].area|)
    ensures ValidRounds(rounds[..n + 1], size) && ValidRounds(rounds[1..][..n], size)
    ensures var p := Turn(hooks, rounds[0], world, log);
            PerformAll(hooks, size, world, log, rounds[..n + 1])
            == PerformAll(hooks, size, p.world, p.log, rounds[1..][..n])
  {
    RoundFormed(rounds, size);
    hide Turn, Perform, Tasks, ValidRound;
    TurnPerforms(hooks, rounds[0], world, log);
    assert rounds[..n + 1][1..] == rounds[1..][..n] && rounds[..n + 1][0] == rounds[0];
  }

  /** binder_call performs every task of every round it goes through, the last one included however
      it ends, in order and nothing else; and so does binder_loop. */
  lemma {:induction false} CallPerforms<S>(hooks: Hooks<S>, size: nat, world: S, log: seq<Bc>, rounds: seq<Round>)
    requires ValidRounds(rounds, size)
    ensures var run := Calling(hooks, size, world, log, rounds);
            && run.used <= |rounds| && ValidRounds(rounds[..run.used], size)
            && (run.world, run.log) == PerformAll(hooks, size, world, log, rounds[..run.used])
    decreases |rounds|
  {
    hide Turn, ValidRound, Perform, Tasks;
    if rounds != [] {
      RoundFormed(rounds, size);
      var p := Turn(hooks, rounds[0], world, log);
      if p.r > 0 {
        CallPerforms(hooks, size, p.world, p.log, rounds[1..]);
        PerformNext(hooks, size, world, log, rounds, Calling(hooks, size, p.world, p.log, rounds[1..]).used);
      } else {
        PerformNext(hooks, size, world, log, rounds, 0);
      }
    }
  }

  lemma {:induction false} LoopPerforms<S>(hooks: Hooks<S>, size: nat, world: S, log: seq<Bc>, rounds: seq<Round>)
    requires ValidRounds(rounds, size)
    ensures var run := Looping(hooks, size, world, log, rounds);
            && run.used <= |rounds| && ValidRounds(rounds[..run.used], size)
            && (run.world, run.log) == PerformAll(hooks, size, world, log, rounds[..run.used])
    decreases |rounds|
  {
    hide Turn, ValidRound, Perform, Tasks;
    if rounds != [] {
      RoundFormed(rounds, size);
      var p := Turn(hooks, rounds[0], world, log);
      if p.r > 0 {
        LoopPerforms(hooks, size, p.world, p.log, rounds[1..]);
        PerformNext(hooks, size, world, log, rounds, Looping(hooks, size, p.world, p.log, rounds[1..]).used);
      } else {
        PerformNext(hooks, size, world, log, rounds, 0);
      }
    }
  }

  /** A round that lets the loop go on. */
  predicate Quieted(r: Round) {
    r.ok && NoUnknown(r.cs) && r.tail.Whole? && LastTerminal(r.cs) < 0
  }

  /** The first n rounds all let it go on. */
  ghost predicate QuietUntil(rounds: seq<Round>, n: nat) {
    n <= |rounds| && forall k :: 0 <= k < n ==> Quieted(rounds[k])
  }

  lemma QuietLonger(rounds: seq<Round>, n: nat)
    requires rounds != [] && Quieted(rounds[0]) && QuietUntil(rounds[1..], n)
    ensures QuietUntil(rounds, n + 1)
  {
    hide Quieted;
    forall k | 0 <= k < n + 1 ensures Quieted(rounds[k]) {
      if k > 0 { assert rounds[1..][k - 1] == rounds[k]; }
    }
  }

  /** A round whose last terminal command is a reply. */
  predicate EndsInReply(r: Round) {
    r.ok && NoUnknown(r.cs) && r.tail.Whole? && LastTerminal(r.cs) >= 0 && r.cs[LastTerminal(r.cs)].BrReply?
  }

  /** binder_call ends with the first round that is not quiet, and returns 0 exactly when that
      round's last terminal command is a reply. */
  lemma {:induction false} CallStops<S>(hooks: Hooks<S>, size: nat, world: S, log: seq<Bc>, rounds: seq<Round>)
    requires ValidRounds(rounds, size)
    ensures var run := Calling(hooks, size, world, log, rounds);
            && run.used <= |rounds|
            && (run.end.Blocked? ==> run.used == |rounds|)
            && (!run.end.Blocked? ==> run.used > 0 && !Quieted(rounds[run.used - 1]))
            && QuietUntil(rounds, if run.end.Blocked? then run.used else run.used - 1)
            && (!run.end.Blocked? ==> (run.end.Replied? <==> EndsInReply(rounds[run.used - 1])))
    decreases |rounds|
  {
    NoneYet(rounds);
    if rounds != [] {
      var r := rounds[0];
      RoundFormed(rounds, size);
      TurnResult(hooks, r, world, log);
      hide Turn, Quieted, EndsInReply, QuietUntil, ValidRounds;
      var p := Turn(hooks, r, world, log);
      if p.r > 0 {
        CallStops(hooks, size, p.world, p.log, rounds[1..]);
        var run := Calling(hooks, size, p.world, p.log, rounds[1..]);
        QuietLonger(rounds, if run.end.Blocked? then run.used else run.used - 1);
      }
    }
  }

  lemma NoneYet(rounds: seq<Round>)
    ensures QuietUntil(rounds, 0)
  {
  }

  /** The result of one round. */
  lemma TurnResult<S>(hooks: Hooks<S>, r: Round, world: S, log: seq<Bc>)
    requires AllFormed(r.cs, |r.area|)
    ensures var p := Turn(hooks, r, world, log);
            (p.r > 0 <==> Quieted(r)) && (p.r == 0 <==> EndsInReply(r))
  {
    if r.ok { ResultByLastTerminal(hooks, r.area, world, log, r.cs, r.tail); }
  }

  lemma CallUses<S>(hooks: Hooks<S>, size: nat, world: S, log: seq<Bc>, rounds: seq<Round>)
    requires ValidRounds(rounds, size)
    ensures Calling(hooks, size, world, log, rounds).used <= |rounds|
  {
    CallStops(hooks, size, world, log, rounds);
  }

  /** A successful call returns a shared view of the one buffer its last round delivered: no
      second reply, which nobody would free, and no transaction fits beside it. */
  lemma {:induction false} CallReply<S>(hooks: Hooks<S>, size: nat, world: S, log: seq<Bc>, rounds: seq<Round>)
    requires ValidRounds(rounds, size) && Calling(hooks, size, world, log, rounds).end.Replied?
    ensures var run := Calling(hooks, size, world, log, rounds);
            && 0 < run.used <= |rounds|
            && var last := rounds[run.used - 1];
            && Deliveries(last.cs) == 1
            && FirstReply(last.cs) < |last.cs|
            && WellFormed(last.cs[FirstReply(last.cs)], |last.area|)
            && run.end.reply == FromTxn(last.area, last.cs[FirstReply(last.cs)].txn)
            && run.end.reply.flags == Flags(true, false, false)
    decreases |rounds|
  {
    var r := rounds[0];
    assert r in rounds;
    var p := Parse(hooks, r.area, world, log, r.cs, r.tail);
    if p.r == 0 {
      ResultByLastTerminal(hooks, r.area, world, log, r.cs, r.tail);
      ZeroHasReply(hooks, r.area, world, log, r.cs, r.tail);
      OneReply(r.cs, r.tail);
    } else {
      CallReply(hooks, size, p.world, p.log, rounds[1..]);
    }
  }

  /** In a read buffer of 128 bytes a reply is the only delivery. */
  lemma OneReply(cs: seq<Br>, tail: Tail)
    requires |Stream(cs, tail)| <= 128 && FirstReply(cs) < |cs|
    requires LastTerminal(cs) >= 0 && cs[LastTerminal(cs)].BrReply?
    ensures Deliveries(cs) == 1 && FirstReply(cs) == LastTerminal(cs)
  {
    AtMostOneDelivery(cs);
    hide Stream, Deliveries, FirstReply, LastTerminal;
    var f, l := FirstReply(cs), LastTerminal(cs);
    DeliveriesSplit(cs, f);
    if f < l {
      assert cs[f + 1..][l - f - 1] == cs[l];
      DeliveriesSplit(cs[f + 1..], l - f - 1);
      assert false;
    }
    assert l <= f;
  }

  lemma {:induction false} DeliveriesSplit(cs: seq<Br>, k: nat)
    ensures k < |cs| && cs[k].BrReply? ==> Deliveries(cs) >= 1 + Deliveries(cs[k + 1..])
    decreases k
  {
    if 0 < k < |cs| {
      DeliveriesSplit(cs[1..], k - 1);
      assert cs[1..][k..] == cs[k + 1..];
    }
  }

  /** The reply buffers a list of commands delivers, in order. */
  function ReplyBuffers(cs: seq<Br>): seq<u64> {
    if cs == [] then []
    else (if cs[0].BrReply? then [cs[0].txn.buffer] else []) + ReplyBuffers(cs[1..])
  }

  function RepliesIn(rounds: seq<Round>): seq<u64> {
    if rounds == [] then []
    else (if rounds[0].ok then ReplyBuffers(Visited(rounds[0].cs)) else []) + RepliesIn(rounds[1..])
  }

  /** What the caller gives back after a call: binder_done frees the reply it holds, if any. */
  function GivenBack(end: CallEnd): seq<u64> {
    if end.Replied? then [end.reply.base] else []
  }

  /** A round whose parse meets a reply. */
  predicate MeetsReply(r: Round) {
    r.ok && FirstReply(Visited(r.cs)) < |Visited(r.cs)|
  }

  /** Round k is the first that does not let the call go on, and it meets a reply but does not end
      in one: its last terminal command is a failure, or it holds an unknown command or a payload
      cut short. */
  ghost predicate FailsOnReply(rounds: seq<Round>, k: nat) {
    k < |rounds| && QuietUntil(rounds, k) && MeetsReply(rounds[k]) && !EndsInReply(rounds[k])
  }

  /** Reply buffers over any run of binder_call: the call itself frees none, and all it met are
      given back afterwards unless the first round that ends it meets a reply and yet fails: then
      that buffer is lost, for the reply that held it is zeroed. */
  lemma CallSettles<S(!new)>(hooks: Hooks<S>, size: nat, world: S, log: seq<Bc>, rounds: seq<Round>)
    requires ValidRounds(rounds, size) && hooks.func.None? && QuietHooks(hooks)
    ensures var run := Calling(hooks, size, world, log, rounds);
            && run.used <= |rounds| && Ledger(run.log) == Ledger(log)
            && (RepliesIn(rounds[..run.used]) == GivenBack(run.end) <==> !exists k: nat :: FailsOnReply(rounds, k))
  {
    CallGives(hooks, size, world, log, rounds);
    CallStops(hooks, size, world, log, rounds);
    hide Calling, Ledger, RepliesIn, GivenBack, ValidRounds, QuietHooks;
    var run := Calling(hooks, size, world, log, rounds);
    if run.end.CallFailed? && MeetsReply(rounds[run.used - 1]) {
      assert FailsOnReply(rounds, run.used - 1);
    }
    forall k: nat | FailsOnReply(rounds, k) ensures run.end.CallFailed? && MeetsReply(rounds[run.used - 1]) {
      MeetsTerminal(rounds[k]);
      hide Quieted, MeetsReply, EndsInReply;
      var m := if run.end.Blocked? then run.used else run.used - 1;
      FirstLoud(rounds, k, m);
    }
  }

  /** A round that meets a reply does not let the call go on. */
  lemma MeetsTerminal(r: Round)
    requires MeetsReply(r)
    ensures !Quieted(r)
  {
    if NoUnknown(r.cs) {
      AllVisited(r.cs);
      assert Terminal(r.cs[FirstReply(r.cs)]);
    }
  }

  lemma FirstLoud(rounds: seq<Round>, k: nat, m: nat)
    requires k < |rounds| && QuietUntil(rounds, k) && !Quieted(rounds[k]) && QuietUntil(rounds, m)
    requires m < |rounds| ==> !Quieted(rounds[m])
    ensures k == m
  {
    hide Quieted;
  }

  /** A reply lost: one round holding a reply and then a failure, 72 bytes in all. The call fails,
      and neither it nor its caller frees the reply's buffer. */
  lemma ReplyLost<S>(hooks: Hooks<S>, world: S, log: seq<Bc>, area: seq<byte>, t: Txn)
    requires InRange(t, |area|)
    ensures var rounds := [Round(true, 4 + TXN_SIZE, area, [BrReply(t), FailedReply], Whole)];
            && ValidRounds(rounds, |area|)
            && var run := Calling(hooks, |area|, world, log, rounds);
            && run.end.CallFailed? && run.used == 1 && run.log == log
            && RepliesIn(rounds) == [t.buffer] && GivenBack(run.end) == []
  {
    hide TxnBytes, Le32;
    var cs := [BrReply(t), FailedReply];
    var r := Round(true, 4 + TXN_SIZE, area, cs, Whole);
    assert cs[1..] == [FailedReply] && cs[1..][1..] == [] && [r][1..] == [];
    TwoCommands(BrReply(t), FailedReply);
    assert Visited([FailedReply]) == [FailedReply];
    assert Visited(cs) == cs;
    assert ReplyBuffers([FailedReply]) == [];
    assert ReplyBuffers(cs) == [t.buffer];
    var p := Step(hooks, area, Start(world, log), BrReply(t));
    assert Fold(hooks, area, Start(world, log), cs) == Fold(hooks, area, p, [FailedReply]);
    assert Fold(hooks, area, p, [FailedReply]) == Step(hooks, area, p, FailedReply);
  }

  lemma TwoCommands(a: Br, b: Br)
    ensures |Stream([a, b], Whole)| == |BrBytes(a)| + |BrBytes(b)|
  {
    hide BrBytes;
    assert [a, b][1..] == [b] && [b][1..] == [];
    assert Encode([b]) == BrBytes(b) + Encode([]);
  }

  lemma {:induction false} CallGives<S(!new)>(hooks: Hooks<S>, size: nat, world: S, log: seq<Bc>, rounds: seq<Round>)
    requires ValidRounds(rounds, size) && hooks.func.None? && QuietHooks(hooks)
    ensures var run := Calling(hooks, size, world, log, rounds);
            && run.used <= |rounds| && (run.end.CallFailed? ==> run.used > 0)
            && Ledger(run.log) == Ledger(log)
            && (RepliesIn(rounds[..run.used]) == GivenBack(run.end)
                <==> !(run.end.CallFailed? && MeetsReply(rounds[run.used - 1])))
    decreases |rounds|
  {
    hide Turn, QuietHooks, Ledger, Visited, ReplyBuffers, MeetsReply, ValidRound;
    if rounds != [] {
      var r := rounds[0];
      assert r in rounds;
      RoundFormed(rounds, size);
      var p := Turn(hooks, r, world, log);
      TurnLedger(hooks, r, world, log);
      TurnReplies(hooks, r, world, log);
      if p.r > 0 {
        CallGives(hooks, size, p.world, p.log, rounds[1..]);
        var n := Calling(hooks, size, p.world, p.log, rounds[1..]).used;
        RepliesNext(rounds, n);
        if n > 0 { assert rounds[1..][n - 1] == rounds[n]; }
      } else {
        RepliesNext(rounds, 0);
        var first := if r.ok then ReplyBuffers(Visited(r.cs)) else [];
        assert first + [] == first;
      }
    }
  }

  lemma RoundFormed(rounds: seq<Round>, size: nat)
    requires rounds != [] && ValidRounds(rounds, size)
    ensures ValidRound(rounds[0], |rounds[0].area|) && AllFormed(rounds[0].cs, |rounds[0].area|)
    ensures ValidRounds(rounds[1..], size)
  {
    assert rounds[0] in rounds;
  }

  lemma RepliesNext(rounds: seq<Round>, n: nat)
    requires rounds != [] && n < |rounds|
    ensures RepliesIn(rounds[..n + 1])
         == (if rounds[0].ok then ReplyBuffers(Visited(rounds[0].cs)) else []) + RepliesIn(rounds[1..][..n])
    ensures n == 0 ==> RepliesIn(rounds[1..][..n]) == []
  {
    assert rounds[..n + 1][1..] == rounds[1..][..n];
  }

  lemma TurnLedger<S(!new)>(hooks: Hooks<S>, r: Round, world: S, log: seq<Bc>)
    requires AllFormed(r.cs, |r.area|) && hooks.func.None? && QuietHooks(hooks)
    ensures Ledger(Turn(hooks, r, world, log).log) == Ledger(log)
  {
    hide Ledger, QuietHooks, Fold;
    if r.ok { NoHandlerNoLedger(hooks, r.area, Start(world, log), r.cs); }
  }

  /** The reply buffers of one round, by how its parse ends. */
  lemma TurnReplies<S>(hooks: Hooks<S>, r: Round, world: S, log: seq<Bc>)
    requires ValidRound(r, |r.area|)
    ensures var p := Turn(hooks, r, world, log);
            && (p.r > 0 ==> r.ok && ReplyBuffers(Visited(r.cs)) == [])
            && (p.r == 0 ==> r.ok && p.bio.Some? && ReplyBuffers(Visited(r.cs)) == [p.bio.value.base])
            && (p.r < 0 && r.ok ==> (ReplyBuffers(Visited(r.cs)) == [] <==> !MeetsReply(r)))
            && (!r.ok ==> p.r < 0 && !MeetsReply(r))
  {
    if r.ok {
      TurnResult(hooks, r, world, log);
      var p := Turn(hooks, r, world, log);
      if p.r == 0 {
        WonReply(hooks, r, world, log);
      } else if p.r > 0 {
        hide Turn;
        QuietReplies(r);
      } else {
        hide Turn;
        FirstMet(Visited(r.cs));
      }
    }
  }

  lemma QuietReplies(r: Round)
    requires Quieted(r)
    ensures ReplyBuffers(Visited(r.cs)) == []
  {
    AllVisited(r.cs);
    FirstMet(r.cs);
    assert FirstReply(r.cs) == |r.cs|;
  }

  lemma WonReply<S>(hooks: Hooks<S>, r: Round, world: S, log: seq<Bc>)
    requires ValidRound(r, |r.area|) && r.ok && Turn(hooks, r, world, log).r == 0 && EndsInReply(r)
    ensures var p := Turn(hooks, r, world, log);
            p.bio.Some? && ReplyBuffers(Visited(r.cs)) == [p.bio.value.base]
  {
    ZeroHasReply(hooks, r.area, world, log, r.cs, r.tail);
    hide Parse, Stream;
    AllVisited(r.cs);
    FirstMet(r.cs);
    OneReply(r.cs, r.tail);
    BuffersDelivered(r.cs);
    hide FirstReply, LastTerminal, ReplyBuffers, Deliveries, Visited;
    var one := ReplyBuffers(r.cs);
    assert one == [one[0]];
  }

  lemma {:induction false} AllVisited(cs: seq<Br>)
    requires NoUnknown(cs)
    ensures Visited(cs) == cs
  {
    if cs != [] {
      assert cs[0] in cs;
      AllVisited(cs[1..]);
    }
  }

  lemma {:induction false} FirstMet(cs: seq<Br>)
    ensures ReplyBuffers(cs) == [] <==> FirstReply(cs) == |cs|
    ensures FirstReply(cs) < |cs| ==> ReplyBuffers(cs) != [] && ReplyBuffers(cs)[0] == cs[FirstReply(cs)].txn.buffer
  {
    if cs != [] && !cs[0].BrReply? {
      FirstMet(cs[1..]);
      assert FirstReply(cs) == 1 + FirstReply(cs[1..]) && ReplyBuffers(cs) == ReplyBuffers(cs[1..]);
    }
  }

  lemma {:induction false} BuffersDelivered(cs: seq<Br>)
    ensures |ReplyBuffers(cs)| <= Deliveries(cs)
  {
    if cs != [] { BuffersDelivered(cs[1..]); }
  }

  /** A run of binder_loop: whether and after how many rounds it stopped. */
  datatype LoopRun<S> = LoopRun(world: S, log: seq<Bc>, used: nat, stopped: bool)

  function Looping<S>(hooks: Hooks<S>, size: nat, world: S, log: seq<Bc>, rounds: seq<Round>): LoopRun<S>
    requires ValidRounds(rounds, size)
    decreases |rounds|
  {
    if rounds == [] then LoopRun(world, log, 0, false)
    else
      assert rounds[0] in rounds;
      var p := Turn(hooks, rounds[0], world, log);
      if p.r <= 0 then LoopRun(p.world, p.log, 1, true)
      else
        var run := Looping(hooks, size, p.world, p.log, rounds[1..]);
        run.(used := run.used + 1)
  }

  /** The loop stops at the first round that fails or holds a terminal or unreadable command,
      whatever its handler returns. */
  lemma {:induction false} LoopStops<S>(hooks: Hooks<S>, size: nat, world: S, log: seq<Bc>, rounds: seq<Round>)
    requires ValidRounds(rounds, size)
    ensures var run := Looping(hooks, size, world, log, rounds);
            && run.used <= |rounds|
            && (run.stopped ==> run.used > 0 && !Quieted(rounds[run.used - 1]))
            && (!run.stopped ==> run.used == |rounds|)
            && QuietUntil(rounds, if run.stopped then run.used - 1 else run.used)
    decreases |rounds|
  {
    NoneYet(rounds);
    if rounds != [] {
      var r := rounds[0];
      RoundFormed(rounds, size);
      TurnResult(hooks, r, world, log);
      hide Turn, Quieted, EndsInReply, QuietUntil, ValidRounds;
      var p := Turn(hooks, r, world, log);
      if p.r > 0 {
        LoopStops(hooks, size, p.world, p.log, rounds[1..]);
        var run := Looping(hooks, size, p.world, p.log, rounds[1..]);
        QuietLonger(rounds, if run.stopped then run.used - 1 else run.used);
      }
    }
  }

  /** The transactions delivered by a list of rounds and reached by the parser. */
  function Arrivals(rounds: seq<Round>): seq<TxnSec> {
    if rounds == [] then [] else RoundArrivals(rounds[0]) + Arrivals(rounds[1..])
  }

  function RoundArrivals(r: Round): seq<TxnSec> {
    if r.ok then Transactions(Visited(r.cs)) else []
  }

  lemma RoundLedger<S(!new)>(hooks: Hooks<S>, r: Round, world: S, log: seq<Bc>)
    returns (served: seq<Served<S>>)
    requires AllFormed(r.cs, |r.area|) && hooks.func.Some? && QuietHooks(hooks)
    ensures var p := Turn(hooks, r, world, log);
            && Answers(served, RoundArrivals(r))
            && Ledger(p.log) == Ledger(log) + Owed(served)
  {
    hide Fold, ServedBy, Ledger, Owed, QuietHooks, Visited, Answers;
    if r.ok {
      LedgerBalanced(hooks, r.area, Start(world, log), r.cs);
      served := ServedBy(hooks, r.area, Start(world, log), r.cs);
    } else {
      NothingServed<S>(log);
      served := [];
    }
  }

  /** The buffer ledger of the server loop, over every run: the transactions of all rounds run,
      in arrival order, have each their buffer freed exactly once and are answered exactly when
      they are not one-way. */
  lemma {:induction false} LoopLedger<S(!new)>(hooks: Hooks<S>, size: nat, world: S, log: seq<Bc>, rounds: seq<Round>)
    returns (served: seq<Served<S>>)
    requires ValidRounds(rounds, size) && hooks.func.Some? && QuietHooks(hooks)
    ensures var run := Looping(hooks, size, world, log, rounds);
            && run.used <= |rounds|
            && Answers(served, Arrivals(rounds[..run.used]))
            && Ledger(run.log) == Ledger(log) + Owed(served)
    decreases |rounds|
  {
    hide Ledger, Owed, QuietHooks, RoundArrivals, Answers, Turn, ValidRound;
    if rounds == [] {
      NothingServed<S>(log);
      NothingArrives([]);
      return [];
    }
    var r := rounds[0];
    RoundFormed(rounds, size);
    served := RoundLedger(hooks, r, world, log);
    var p := Turn(hooks, r, world, log);
    if p.r > 0 {
      LoopStops(hooks, size, p.world, p.log, rounds[1..]);
      var later := LoopLedger(hooks, size, p.world, p.log, rounds[1..]);
      var n := Looping(hooks, size, p.world, p.log, rounds[1..]).used;
      assert Looping(hooks, size, world, log, rounds).used == n + 1;
      OwedConcat(served, later);
      ArrivalsNext(rounds, n);
      AnswersConcat(served, RoundArrivals(r), later, Arrivals(rounds[1..][..n]));
      served := served + later;
    } else {
      ArrivalsNext(rounds, 0);
      assert RoundArrivals(r) + [] == RoundArrivals(r);
    }
  }

  lemma ArrivalsNext(rounds: seq<Round>, n: nat)
    requires rounds != [] && n < |rounds|
    ensures Arrivals(rounds[..n + 1]) == RoundArrivals(rounds[0]) + Arrivals(rounds[1..][..n])
    ensures n == 0 ==> Arrivals(rounds[1..][..n]) == []
  {
    assert rounds[..n + 1][1..] == rounds[1..][..n];
  }

  lemma NothingArrives(rounds: seq<Round>)
    requires |rounds| <= 1 && forall r | r in rounds :: !r.ok
    ensures Arrivals(rounds) == []
  {
  }
}
