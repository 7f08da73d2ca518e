/** binder_parse as a fold over commands, and what the fold guarantees. */
module Parser {
  import opened Words
  import opened Writer
  import opened Reader
  import opened Commands

  /** What a binder_handler did: the new state of its process, the commands it wrote, the reply
      it built and the status it returned. */
  datatype Handled<S> = Handled(world: S, log: seq<Bc>, reply: Out, status: int)

  type Handler<!S> = (S, TxnSec, In, Out) -> Handled<S>

  /** A death callback, by cookie. */
  type Death<!S> = (S, u64) -> (S, seq<Bc>)

  const REPLY_SIZE: nat := 256
  const REPLY_SLOTS: nat := 4

  /** The uninitialised reply buffer on the stack. */
  type StackBuffer = s: seq<byte> | |s| == REPLY_SIZE witness seq(REPLY_SIZE, _ => 0)

  /** The function pointers of a process, and the garbage its stack buffers start with. */
  datatype Hooks<!S> = Hooks(func: Option<Handler<S>>, death: Death<S>, stack: nat -> StackBuffer)

  /** The parser's variables: r, whether it returned early, the state of the process, the
      commands written so far, and the binder_io handed in once it is initialised. */
  datatype Parsed<S> = Parsed(r: int, halted: bool, world: S, log: seq<Bc>, bio: Option<In>)

  function Start<S>(world: S, log: seq<Bc>): Parsed<S> {
    Parsed(1, false, world, log, None)
  }

  function StatusWord(status: int): u32 {
    status % TWO32
  }

  lemma MinusOne()
    ensures Le32(StatusWord(-1)) == [255, 255, 255, 255]
  {
  }

  /** The reply of binder_send_reply. */
  function ReplyOf<S>(h: Handled<S>): Bc {
    if h.status != 0 then SendReply(TF_STATUS_CODE, Le32(StatusWord(h.status)), [])
    else SendReply(0, h.reply.bytes, h.reply.offsets)
  }

  /** The commands written for one transaction: those of the handler, the release of the
      buffer, and the reply unless the call is one-way. */
  function ServiceLog<S>(t: Txn, h: Handled<S>): seq<Bc> {
    h.log + [FreeBuffer(t.buffer)] + if OneWay(t) then [] else [ReplyOf(h)]
  }

  function Invoke<S>(hooks: Hooks<S>, mapped: seq<byte>, p: Parsed<S>, t: TxnSec): Handled<S>
    requires hooks.func.Some? && InRange(t.txn, |mapped|)
  {
    (hooks.func.value)(p.world, t, FromTxn(mapped, t.txn), Fresh((hooks.stack)(|p.log|), REPLY_SLOTS))
  }

  function Step<S>(hooks: Hooks<S>, mapped: seq<byte>, p: Parsed<S>, c: Br): Parsed<S>
    requires WellFormed(c, |mapped|)
  {
    if p.halted then p
    else if Carries(c) then
      if hooks.func.None? then p
      else
        var h := Invoke(hooks, mapped, p, Carried(c));
        p.(world := h.world, log := p.log + ServiceLog(Carried(c).txn, h))
    else
      match c
      case BrReply(t) => p.(r := 0, bio := if p.bio.None? then Some(FromTxn(mapped, t)) else p.bio)
      case DeadBinder(k) =>
        var (w, l) := (hooks.death)(p.world, k);
        p.(world := w, log := p.log + l)
      case FailedReply => p.(r := -1)
      case DeadReply => p.(r := -1)
      case Unknown(_) => p.(r := -1, halted := true)
      case _ => p
  }

  predicate AllFormed(cs: seq<Br>, size: nat) {
    forall c | c in cs :: WellFormed(c, size)
  }

  function Fold<S>(hooks: Hooks<S>, mapped: seq<byte>, p: Parsed<S>, cs: seq<Br>): Parsed<S>
    requires AllFormed(cs, |mapped|)
    decreases |cs|
  {
    if cs == [] then p else Fold(hooks, mapped, Step(hooks, mapped, p, cs[0]), cs[1..])
  }

  /** The whole call: a payload cut short ends it with -1 and keeps everything before. */
  function Finish<S>(p: Parsed<S>, tail: Tail): Parsed<S> {
    if !p.halted && tail.Cut? then p.(r := -1, halted := true) else p
  }

  function Parse<S>(hooks: Hooks<S>, mapped: seq<byte>, world: S, log: seq<Bc>, cs: seq<Br>, tail: Tail): Parsed<S>
    requires AllFormed(cs, |mapped|)
  {
    Finish(Fold(hooks, mapped, Start(world, log), cs), tail)
  }

  lemma {:induction false} FoldHalted<S>(hooks: Hooks<S>, mapped: seq<byte>, p: Parsed<S>, cs: seq<Br>)
    requires AllFormed(cs, |mapped|) && p.halted
    ensures Fold(hooks, mapped, p, cs) == p
    decreases |cs|
  {
    if cs != [] {
      FoldHalted(hooks, mapped, p, cs[1..]);
    }
  }

  lemma StreamHead(c: Br, cs: seq<Br>, tail: Tail)
    ensures Stream([c] + cs, tail) == BrBytes(c) + Stream(cs, tail)
  {
    assert ([c] + cs)[1..] == cs;
  }

  // ---------------------------------------------------------------------------------------
  // The result code and the reply
  // ---------------------------------------------------------------------------------------

  predicate Terminal(c: Br) {
    c.BrReply? || c.FailedReply? || c.DeadReply?
  }

  predicate NoUnknown(cs: seq<Br>) {
    forall c | c in cs :: !c.Unknown?
  }

  /** The position of the last terminal command, or -1. */
  function LastTerminal(cs: seq<Br>): (k: int)
    ensures -1 <= k < |cs|
    ensures k >= 0 ==> Terminal(cs[k])
    ensures forall j :: k < j < |cs| ==> !Terminal(cs[j])
  {
    if cs == [] then -1
    else if Terminal(cs[|cs| - 1]) then |cs| - 1
    else LastTerminal(cs[..|cs| - 1])
  }

  /** The position of the first reply, or |cs|. */
  function FirstReply(cs: seq<Br>): (k: nat)
    ensures k <= |cs|
    ensures k < |cs| ==> cs[k].BrReply?
    ensures forall j :: 0 <= j < k ==> !cs[j].BrReply?
  {
    if cs == [] || cs[0].BrReply? then 0 else 1 + FirstReply(cs[1..])
  }

  function Verdict(cs: seq<Br>, r: int): int {
    var k := LastTerminal(cs);
    if k < 0 then r else if cs[k].BrReply? then 0 else -1
  }

  lemma {:induction false} FoldSnoc<S>(hooks: Hooks<S>, mapped: seq<byte>, p: Parsed<S>, cs: seq<Br>, c: Br)
    requires AllFormed(cs + [c], |mapped|)
    ensures AllFormed(cs, |mapped|) && WellFormed(c, |mapped|)
    ensures Fold(hooks, mapped, p, cs + [c]) == Step(hooks, mapped, Fold(hooks, mapped, p, cs), c)
    decreases |cs|
  {
    assert c in cs + [c];
    assert forall x | x in cs :: x in cs + [c];
    if cs == [] {
      assert cs + [c] == [c];
      assert Fold(hooks, mapped, p, [c]) == Fold(hooks, mapped, Step(hooks, mapped, p, c), [c][1..]);
    } else {
      assert (cs + [c])[1..] == cs[1..] + [c];
      FoldSnoc(hooks, mapped, Step(hooks, mapped, p, cs[0]), cs[1..], c);
    }
  }

  /** Without unknown commands the result is fixed by the last terminal command, whatever the
      handlers did; with none the parse asks for more (1). An unknown command, or a payload
      cut short, gives -1. */
  lemma ResultByLastTerminal<S>(hooks: Hooks<S>, mapped: seq<byte>, world: S, log: seq<Bc>, cs: seq<Br>, tail: Tail)
    requires AllFormed(cs, |mapped|)
    ensures var p := Parse(hooks, mapped, world, log, cs, tail);
            p.r == if NoUnknown(cs) && tail.Whole? then Verdict(cs, 1) else -1
    ensures var p := Fold(hooks, mapped, Start(world, log), cs);
            p.halted == !NoUnknown(cs) && (NoUnknown(cs) ==> p.r == Verdict(cs, 1))
  {
    FoldResult(hooks, mapped, Start(world, log), cs);
  }

  lemma {:induction false} FoldResult<S>(hooks: Hooks<S>, mapped: seq<byte>, p: Parsed<S>, cs: seq<Br>)
    requires AllFormed(cs, |mapped|) && !p.halted
    ensures var q := Fold(hooks, mapped, p, cs);
            && q.halted == !NoUnknown(cs)
            && q.r == if NoUnknown(cs) then Verdict(cs, p.r) else -1
    decreases |cs|
  {
    if cs != [] {
      var n := |cs| - 1;
      assert cs[..n] + [cs[n]] == cs;
      FoldSnoc(hooks, mapped, p, cs[..n], cs[n]);
      FoldResult(hooks, mapped, p, cs[..n]);
      assert NoUnknown(cs) <==> NoUnknown(cs[..n]) && !cs[n].Unknown?;
    }
  }

  /** The binder_io is initialised from the first reply met and from no other. */
  lemma {:induction false} FirstReplyFills<S>(hooks: Hooks<S>, mapped: seq<byte>, p: Parsed<S>, cs: seq<Br>)
    requires AllFormed(cs, |mapped|) && !p.halted && NoUnknown(cs)
    ensures var k := FirstReply(cs);
            Fold(hooks, mapped, p, cs).bio ==
            if p.bio.Some? || k == |cs| then p.bio else assert cs[k] in cs; Some(FromTxn(mapped, cs[k].txn))
    decreases |cs|
  {
    if cs != [] {
      FirstReplyFills(hooks, mapped, Step(hooks, mapped, p, cs[0]), cs[1..]);
    }
  }

  // ---------------------------------------------------------------------------------------
  // What a parse does
  // ---------------------------------------------------------------------------------------

  /** The things a process is asked to do: serve a transaction, or hear of a death. */
  datatype Task = Service(sec: TxnSec) | Notice(cookie: u64)

  function Tasks(cs: seq<Br>): seq<Task> {
    if cs == [] || cs[0].Unknown? then []
    else
      (match cs[0]
       case Transaction(t) => [Service(TxnSec(t, 0))]
       case TransactionSec(s) => [Service(s)]
       case DeadBinder(k) => [Notice(k)]
       case _ => [])
      + Tasks(cs[1..])
  }

  ghost function Perform<S>(hooks: Hooks<S>, mapped: seq<byte>, world: S, log: seq<Bc>, ts: seq<Task>): (S, seq<Bc>)
    requires forall t | t in ts :: t.Service? ==> InRange(t.sec.txn, |mapped|)
    decreases |ts|
  {
    if ts == [] then (world, log)
    else
      assert ts[0] in ts;
      match ts[0]
      case Notice(k) =>
        var r := (hooks.death)(world, k);
        Perform(hooks, mapped, r.0, log + r.1, ts[1..])
      case Service(t) =>
        if hooks.func.None? then Perform(hooks, mapped, world, log, ts[1..])
        else
          var h := (hooks.func.value)(world, t, FromTxn(mapped, t.txn), Fresh((hooks.stack)(|log|), REPLY_SLOTS));
          Perform(hooks, mapped, h.world, log + ServiceLog(t.txn, h), ts[1..])
  }

  lemma {:induction false} TasksInRange(cs: seq<Br>, size: nat)
    requires AllFormed(cs, size)
    ensures forall t | t in Tasks(cs) :: t.Service? ==> InRange(t.sec.txn, size)
  {
    if cs != [] {
      assert cs[0] in cs;
      TasksInRange(cs[1..], size);
    }
  }

  /** A parse performs the transactions and death notices before the first unknown command, all
      of them and in order, and nothing else. */
  lemma {:induction false} FoldPerforms<S>(hooks: Hooks<S>, mapped: seq<byte>, p: Parsed<S>, cs: seq<Br>)
    requires AllFormed(cs, |mapped|) && !p.halted
    requires forall t | t in Tasks(cs) :: t.Service? ==> InRange(t.sec.txn, |mapped|)
    ensures (Fold(hooks, mapped, p, cs).world, Fold(hooks, mapped, p, cs).log)
            == Perform(hooks, mapped, p.world, p.log, Tasks(cs))
    decreases |cs|
  {
    if cs != [] {
      assert cs[0] in cs;
      var q := Step(hooks, mapped, p, cs[0]);
      if cs[0].Unknown? {
        FoldHalted(hooks, mapped, q, cs[1..]);
      } else {
        TasksInRange(cs[1..], |mapped|);
        FoldPerforms(hooks, mapped, q, cs[1..]);
        if Carries(cs[0]) || cs[0].DeadBinder? {
          assert Tasks(cs)[1..] == Tasks(cs[1..]);
        } else {
          assert Tasks(cs) == Tasks(cs[1..]);
        }
      }
    }
  }

  // ---------------------------------------------------------------------------------------
  // The buffer ledger
  // ---------------------------------------------------------------------------------------

  predicate InLedger(c: Bc) {
    c.FreeBuffer? || c.SendReply?
  }

  /** The buffer releases and replies of a log, in order. */
  function Ledger(log: seq<Bc>): seq<Bc> {
    if log == [] then []
    else if InLedger(log[0]) then [log[0]] + Ledger(log[1..])
    else Ledger(log[1..])
  }

  predicate Quiet(log: seq<Bc>) {
    forall c | c in log :: !InLedger(c)
  }

  /** Handlers and death callbacks leave buffers and replies to the parser. */
  ghost predicate QuietHooks<S(!new)>(hooks: Hooks<S>) {
    && (hooks.func.Some? ==> forall w, t, i, o :: Quiet((hooks.func.value)(w, t, i, o).log))
    && (forall w, k :: Quiet((hooks.death)(w, k).1))
  }

  lemma {:induction false} LedgerConcat(a: seq<Bc>, b: seq<Bc>)
    ensures Ledger(a + b) == Ledger(a) + Ledger(b)
  {
    if a == [] {
      assert a + b == b;
    } else {
      assert (a + b)[1..] == a[1..] + b;
      LedgerConcat(a[1..], b);
    }
  }

  lemma {:induction false} LedgerQuiet(a: seq<Bc>)
    requires Quiet(a)
    ensures Ledger(a) == []
  {
    if a != [] {
      LedgerQuiet(a[1..]);
    }
  }

  /** One transaction served: its buffer, whether it wants a reply, and what the handler did. */
  datatype Served<S> = Served(txn: Txn, handled: Handled<S>)

  /** The commands a parse visits: those before the first unknown one. */
  function Visited(cs: seq<Br>): seq<Br> {
    if cs == [] || cs[0].Unknown? then [] else [cs[0]] + Visited(cs[1..])
  }

  /** The transactions a fold serves, in arrival order, each handled in the state it met. */
  function ServedBy<S>(hooks: Hooks<S>, mapped: seq<byte>, p: Parsed<S>, cs: seq<Br>): seq<Served<S>>
    requires AllFormed(cs, |mapped|) && hooks.func.Some?
    decreases |cs|
  {
    if cs == [] || cs[0].Unknown? then []
    else
      var rest := ServedBy(hooks, mapped, Step(hooks, mapped, p, cs[0]), cs[1..]);
      if Carries(cs[0]) then [Served(Carried(cs[0]).txn, Invoke(hooks, mapped, p, Carried(cs[0])))] + rest
      else rest
  }

  /** The reply due for a handler's work: what it put, or its status in two's complement under the
      flag for a status, 8. */
  function Due<S>(h: Handled<S>): Bc {
    if h.status == 0 then SendReply(0, h.reply.bytes, h.reply.offsets)
    else SendReply(8, Le32(h.status % 0x1_0000_0000), [])
  }

  /** What the ledger owes for a list of served transactions: each buffer once, in order, and
      after it one reply exactly when the lowest bit of the flags, for one-way, is clear,
      whatever the other bits are. */
  function Owed<S>(served: seq<Served<S>>): seq<Bc> {
    if served == [] then []
    else
      [FreeBuffer(served[0].txn.buffer)]
      + (if served[0].txn.flags % 2 == 1 then [] else [Due(served[0].handled)])
      + Owed(served[1..])
  }

  lemma {:induction false} OwedConcat<S>(a: seq<Served<S>>, b: seq<Served<S>>)
    ensures Owed(a + b) == Owed(a) + Owed(b)
    decreases |a|
  {
    if a == [] {
      assert a + b == b;
    } else {
      assert (a + b)[1..] == a[1..] + b;
      OwedConcat(a[1..], b);
    }
  }

  lemma ServiceLedger<S>(t: Txn, h: Handled<S>)
    requires Quiet(h.log)
    ensures Ledger(ServiceLog(t, h)) == Owed([Served(t, h)])
  {
    LedgerQuiet(h.log);
    var tail := if OneWay(t) then [] else [ReplyOf(h)];
    assert ServiceLog(t, h) == h.log + ([FreeBuffer(t.buffer)] + tail);
    LedgerConcat(h.log, [FreeBuffer(t.buffer)] + tail);
    LedgerConcat([FreeBuffer(t.buffer)], tail);
    assert Owed([Served(t, h)][1..]) == [];
  }

  lemma StepLedger<S(!new)>(hooks: Hooks<S>, mapped: seq<byte>, p: Parsed<S>, c: Br)
    requires WellFormed(c, |mapped|) && !p.halted && hooks.func.Some? && QuietHooks(hooks)
    ensures var q := Step(hooks, mapped, p, c);
            Ledger(q.log) == Ledger(p.log)
               + (if Carries(c) then Owed([Served(Carried(c).txn, Invoke(hooks, mapped, p, Carried(c)))]) else [])
  {
    if Carries(c) {
      hide ServiceLog, Owed;
      var t, h := Carried(c).txn, Invoke(hooks, mapped, p, Carried(c));
      LedgerConcat(p.log, ServiceLog(t, h));
      ServiceLedger(t, h);
    } else if c.DeadBinder? {
      var l := (hooks.death)(p.world, c.cookie).1;
      LedgerConcat(p.log, l);
      LedgerQuiet(l);
    }
  }

  lemma LedgerStep(a: seq<Bc>, b: seq<Bc>, c: seq<Bc>)
    ensures a + b + c == a + (b + c) && [] + c == c
  {
  }

  lemma NothingServed<S>(log: seq<Bc>)
    ensures Ledger(log) + Owed<S>([]) == Ledger(log) && Answers<S>([], [])
  {
  }

  lemma AnswersOne<S>(s: Served<S>, t: TxnSec)
    requires s.txn == t.txn
    ensures Answers([s], [t])
  {
  }

  lemma AnswersConcat<S>(a: seq<Served<S>>, s: seq<TxnSec>, b: seq<Served<S>>, t: seq<TxnSec>)
    requires Answers(a, s) && Answers(b, t)
    ensures Answers(a + b, s + t)
  {
  }

  /** The buffer ledger of a parse with a handler: over any stream, exactly the buffers of the
      transactions visited are freed, once each and in arrival order, and exactly the two-way
      ones are answered, with a status reply when the handler failed. */
  lemma {:induction false} LedgerBalanced<S(!new)>(hooks: Hooks<S>, mapped: seq<byte>, p: Parsed<S>, cs: seq<Br>)
    requires AllFormed(cs, |mapped|) && !p.halted && hooks.func.Some? && QuietHooks(hooks)
    ensures var served := ServedBy(hooks, mapped, p, cs);
            && Answers(served, Transactions(Visited(cs)))
            && Ledger(Fold(hooks, mapped, p, cs).log) == Ledger(p.log) + Owed(served)
    decreases |cs|
  {
    if cs == [] {
      NothingServed<S>(p.log);
    } else {
      hide Ledger, Owed, ServiceLog, Invoke, QuietHooks, Answers;
      var q := Step(hooks, mapped, p, cs[0]);
      if cs[0].Unknown? {
        NothingServed<S>(p.log);
        FoldHalted(hooks, mapped, q, cs[1..]);
      } else {
        assert Visited(cs) == [cs[0]] + Visited(cs[1..]);
        hide Visited;
        StepLedger(hooks, mapped, p, cs[0]);
        assert !q.halted;
        hide Step;
        assert Fold(hooks, mapped, p, cs) == Fold(hooks, mapped, q, cs[1..]);
        LedgerBalanced(hooks, mapped, q, cs[1..]);
        if Carries(cs[0]) {
          var s, t := Served(Carried(cs[0]).txn, Invoke(hooks, mapped, p, Carried(cs[0]))), Carried(cs[0]);
          var rest := ServedBy(hooks, mapped, q, cs[1..]);
          assert ServedBy(hooks, mapped, p, cs) == [s] + rest;
          OwedConcat([s], rest);
          AnswersOne(s, t);
          AnswersConcat([s], [t], rest, Transactions(Visited(cs[1..])));
          LedgerStep(Ledger(p.log), Owed([s]), Owed(rest));
        } else {
          LedgerStep(Ledger(p.log), [], Owed(ServedBy(hooks, mapped, q, cs[1..])));
        }
      }
    }
  }

  /** The services of a list of transactions, one for one. */
  ghost predicate Answers<S>(served: seq<Served<S>>, ts: seq<TxnSec>) {
    |served| == |ts| && forall k :: 0 <= k < |ts| ==> served[k].txn == ts[k].txn
  }

  /** Without a handler (as inside binder_call) the ledger stands still: a transaction met
      there is neither freed nor answered. So the deliveries of a stream are settled exactly
      when there is a handler or there are none. */
  lemma {:induction false} NoHandlerNoLedger<S(!new)>(hooks: Hooks<S>, mapped: seq<byte>, p: Parsed<S>, cs: seq<Br>)
    requires AllFormed(cs, |mapped|) && hooks.func.None? && QuietHooks(hooks)
    ensures Ledger(Fold(hooks, mapped, p, cs).log) == Ledger(p.log)
    decreases |cs|
  {
    if cs != [] {
      NoHandlerNoLedger(hooks, mapped, Step(hooks, mapped, p, cs[0]), cs[1..]);
      if cs[0].DeadBinder? {
        var l := (hooks.death)(p.world, cs[0].cookie).1;
        LedgerConcat(p.log, l);
        LedgerQuiet(l);
      }
    }
  }

  function Buffers(log: seq<Bc>): seq<u64> {
    if log == [] then []
    else if log[0].FreeBuffer? then [log[0].buffer] + Buffers(log[1..])
    else Buffers(log[1..])
  }

  function TxnBuffers(ts: seq<TxnSec>): seq<u64> {
    if ts == [] then [] else [ts[0].txn.buffer] + TxnBuffers(ts[1..])
  }

  lemma {:induction false} OwedBuffers<S>(served: seq<Served<S>>, ts: seq<TxnSec>)
    requires Answers(served, ts)
    ensures Buffers(Owed(served)) == TxnBuffers(ts)
  {
    if ts != [] {
      OwedBuffers(served[1..], ts[1..]);
      var o := Owed(served);
      assert o[0] == FreeBuffer(ts[0].txn.buffer);
      if ts[0].txn.flags % 2 == 1 {
        assert o[1..] == Owed(served[1..]);
      } else {
        assert o[1..][1..] == Owed(served[1..]);
      }
    }
  }

  /** Every transaction buffer visited is freed, in order and once, exactly when a handler is
      installed or no transaction was visited. */
  lemma SettledExactly<S(!new)>(hooks: Hooks<S>, mapped: seq<byte>, world: S, cs: seq<Br>)
    requires AllFormed(cs, |mapped|) && QuietHooks(hooks)
    ensures Buffers(Ledger(Fold(hooks, mapped, Start(world, []), cs).log)) == TxnBuffers(Transactions(Visited(cs)))
            <==> hooks.func.Some? || Transactions(Visited(cs)) == []
  {
    if hooks.func.Some? {
      var p := Start(world, []);
      LedgerBalanced(hooks, mapped, p, cs);
      OwedBuffers(ServedBy(hooks, mapped, p, cs), Transactions(Visited(cs)));
      assert Ledger([]) + Owed(ServedBy(hooks, mapped, p, cs)) == Owed(ServedBy(hooks, mapped, p, cs));
    } else {
      NoHandlerNoLedger(hooks, mapped, Start(world, []), cs);
    }
  }

  /** A transaction dropped: met without a handler, whatever it is, it leaves no trace. */
  lemma TransactionDropped<S>(hooks: Hooks<S>, mapped: seq<byte>, p: Parsed<S>, t: Txn)
    requires hooks.func.None? && InRange(t, |mapped|) && !p.halted
    ensures Fold(hooks, mapped, p, [Transaction(t)]) == p
    ensures TxnBuffers(Transactions(Visited([Transaction(t)]))) == [t.buffer]
  {
    var c := Transaction(t);
    assert [c][1..] == [];
    assert Visited([c]) == [c];
    assert Transactions([c]) == [TxnSec(t, 0)];
    assert [TxnSec(t, 0)][1..] == [];
    assert Fold(hooks, mapped, p, [c]) == Fold(hooks, mapped, Step(hooks, mapped, p, c), []);
  }

  /** A parse that returns 0 has initialised the binder_io. */
  lemma ZeroHasReply<S>(hooks: Hooks<S>, mapped: seq<byte>, world: S, log: seq<Bc>, cs: seq<Br>, tail: Tail)
    requires AllFormed(cs, |mapped|) && Parse(hooks, mapped, world, log, cs, tail).r == 0
    ensures NoUnknown(cs) && tail.Whole? && FirstReply(cs) < |cs| && cs[FirstReply(cs)] in cs
    ensures Parse(hooks, mapped, world, log, cs, tail).bio == Some(FromTxn(mapped, cs[FirstReply(cs)].txn))
  {
    ResultByLastTerminal(hooks, mapped, world, log, cs, tail);
    FirstReplyFills(hooks, mapped, Start(world, log), cs);
    assert cs[LastTerminal(cs)].BrReply?;
  }
}
