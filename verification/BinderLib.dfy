/** The user-space binder library as an object over a driver: the parser, the call and the
    server loop, proved against the folds of Parser and Rounds. */
module BinderLib {
  import opened Words
  import opened Writer
  import opened Reader
  import opened Commands
  import opened Parser
  import opened Rounds
  import opened BinderIo

  /** The payload of a command where the parser reads it. */
  ghost predicate PayloadAt(b: seq<byte>, at: nat, c: Br) {
    && at + |Payload(c)| <= |b|
    && (c.Transaction? || c.BrReply? ==> |Payload(c)| == TXN_SIZE && GetTxn(b, at) == c.txn)
    && (c.TransactionSec? ==>
          |Payload(c)| == TXN_SEC_SIZE && GetTxn(b, at) == c.sec.txn && Get64(b, at + TXN_SIZE) == c.sec.secctx)
    && (c.DeadBinder? ==> |Payload(c)| == 8 && Get64(b, at) == c.cookie)
    && (c.Counts? ==> |Payload(c)| == 16)
  }

  predicate Truncated(word: u32, left: nat) {
    || (word == BR_TRANSACTION && left < TXN_SIZE)
    || (word == BR_REPLY && left < TXN_SIZE)
    || (word == BR_TRANSACTION_SEC_CTX && left < TXN_SEC_SIZE)
  }

  /** The command a stream starts with, as the parser reads it. */
  lemma HeadOf(b: seq<byte>, at: nat, cs: seq<Br>, tail: Tail)
    requires at < |b| && b[at..] == Stream(cs, tail) && cs != []
    ensures at + 4 <= |b| && Get32(b, at) == Word(cs[0]) && PayloadAt(b, at + 4, cs[0])
    ensures b[at + 4 + |Payload(cs[0])|..] == Stream(cs[1..], tail)
  {
    hide Stream, GetTxn, Get32, Get64;
    StreamHead(cs[0], cs[1..], tail);
    assert [cs[0]] + cs[1..] == cs;
    ReadHead(b, at, cs[0], Stream(cs[1..], tail));
  }

  /** The remains of a payload cut short. */
  lemma TailOf(b: seq<byte>, at: nat, tail: Tail)
    requires at < |b| && b[at..] == Stream([], tail) && ValidTail(tail)
    ensures tail.Cut? && at + 4 <= |b| && Truncated(Get32(b, at), |b| - at - 4)
  {
    hide Get32, Le32;
    assert tail.Cut?;
    var s := b[at..];
    assert s == TailBytes(tail);
    assert s[0..4] == Le32(tail.word);
    SliceOfSlice(b, at, |s|, 0, 4);
    ReadLe32(b, at, tail.word);
  }

  lemma EmptyStream(cs: seq<Br>, tail: Tail)
    requires Stream(cs, tail) == []
    ensures cs == [] && tail.Whole?
  {
  }

  /** The uninitialised parts of binder_call's write buffer. */
  datatype Junk = Junk(hole: u32, cookie: u64, pid: u32, euid: u32)

  /** The first n bytes, or all of them. */
  function Prefix(write: seq<byte>, n: nat): seq<byte> {
    write[..Min(|write|, n)]
  }

  lemma LowerHalf(low: u32, high: u32)
    ensures ((low as int) + TWO32 * high) % TWO32 == low
  {
  }

  lemma StatusPointed(memory: seq<byte>)
    requires |memory| == 4
    ensures memory[0..4] == memory && Table(memory[0..0]) == []
  {
  }

  class Binder<S> {
    var world: S
    var log: seq<Bc>
    const mapped: array<byte>
    const death: Death<S>
    const stack: nat -> StackBuffer
    /** What the driver is going to do, and the bytes of transactions it has taken so far. */
    var rounds: seq<Round>
    var taken: seq<byte>
    /** The transactions the driver reads in the write buffers of the calls. */
    var offered: seq<Offer>

    constructor (w: S, area: array<byte>, d: Death<S>, g: nat -> StackBuffer, script: seq<Round>)
      ensures world == w && log == [] && mapped == area && death == d && stack == g && rounds == script && taken == []
      ensures offered == []
    {
      world, log, mapped, death, stack, rounds, taken, offered := w, [], area, d, g, script, [], [];
    }

    /** binder_write: the driver takes the buffer whole and reads commands out of it. */
    method Write(data: seq<byte>, memory: seq<byte>)
      modifies this`log
      ensures log == old(log) + Written(data, memory)
    {
      log := log + Written(data, memory);
    }

    method FreeBuffer(buffer: u64)
      modifies this`log
      ensures log == old(log) + [Bc.FreeBuffer(buffer)]
    {
      FreeRead(buffer, [], []);
      NothingWritten([]);
      assert FreeCommand(buffer) + [] == FreeCommand(buffer);
      Write(FreeCommand(buffer), []);
    }

    /** binder_send_reply: one write of two commands, the second with pointers to the status word
        or to the reply's data and offset table. */
    method SendReply(reply: Bio, buffer: u64, status: int)
      requires reply.ValidOut() && -0x8000_0000 <= status < 0x8000_0000
      modifies this`log
      ensures log == old(log) + [Bc.FreeBuffer(buffer), ReplyOf(Handled(world, [], reply.Written(), status))]
    {
      hide Table, TxnBytes, Le32, FreeCommand, Commands.Written;
      var pid: u32, euid: u32 := *, *;
      var t, memory;
      if status != 0 {
        memory := Le32(StatusWord(status));
        t := Txn(0, 0, 0, TF_STATUS_CODE, pid, euid, 4, 0, 0, 0);
        StatusPointed(memory);
      } else {
        memory := reply.mem[..];
        t := Txn(0, 0, 0, 0, pid, euid, reply.data - reply.data0, reply.offs - reply.offs0, reply.data0, reply.offs0);
      }
      ReplyRead(t, memory);
      FreeRead(buffer, Le32(BC_REPLY) + TxnBytes(t), memory);
      Write(FreeCommand(buffer) + (Le32(BC_REPLY) + TxnBytes(t)), memory);
    }

    /** Commands of a handler or callback given as a function: taken as they are. */
    method Take(cmds: seq<Bc>)
      modifies this`log
      ensures log == old(log) + cmds
    {
      log := log + cmds;
    }

    /** One BR_TRANSACTION or BR_TRANSACTION_SEC_CTX. */
    method Serve(t: TxnSec, func: Option<Handler<S>>, ghost p: Parsed<S>)
      requires InRange(t.txn, mapped.Length)
      requires p.world == world && p.log == log && !p.halted
      modifies this`world, this`log
      ensures func.None? ==> world == old(world) && log == old(log)
      ensures func.Some? ==>
                var h := Invoke(Hooks(func, death, stack), mapped[..], p, t);
                world == h.world && log == p.log + ServiceLog(t.txn, h)
    {
      if func.Some? {
        var f := func.value;
        var h := f(world, t, FromTxn(mapped[..], t.txn), Fresh(stack(|log|), REPLY_SLOTS));
        world := h.world;
        Take(h.log);
        FreeBuffer(t.txn.buffer);
        if !OneWay(t.txn) {
          Take([ReplyOf(h)]);
        }
      }
    }

    /** bio is a reader of the mapped area with value i. */
    ghost predicate Filled(bio: Bio, i: In)
      reads bio, mapped
    {
      bio.ValidIn() && bio.mem == mapped && bio.Received() == i
    }

    method Fill(bio: Bio, t: Txn)
      requires InRange(t, mapped.Length)
      modifies bio
      ensures Filled(bio, FromTxn(mapped[..], t))
    {
      bio.InitFromTxn(mapped, t.buffer, t.dataSize, t.offsets, t.offsetsSize);
    }

    /** One round of the parser's loop, after the command word: the switch. The command is c,
        or (cut) a transaction or reply whose payload does not fit in what is left. */
    method Dispatch(cmd: u32, slot: Bio?, readbuf: array<byte>, at: nat, size: nat, func: Option<Handler<S>>, r0: int,
                    ghost p: Parsed<S>, ghost c: Br, ghost cut: bool)
      returns (stop: bool, ptr: nat, r: int, left: Bio?)
      requires at <= size <= readbuf.Length
      requires !p.halted && p.r == r0 && p.world == world && p.log == log
      requires cut ==> Truncated(cmd, size - at)
      requires !cut ==> cmd == Word(c) && WellFormed(c, mapped.Length) && PayloadAt(readbuf[..size], at, c)
      modifies this`world, this`log, slot
      ensures cut ==> stop && world == old(world) && log == old(log) && (slot != null ==> unchanged(slot))
      ensures !cut ==>
                var q := Step(Hooks(func, death, stack), mapped[..], p, c);
                && stop == q.halted && world == q.world && log == q.log
                && (!stop ==> r == q.r && ptr == at + |Payload(c)|)
                && (!stop ==> left == if c.BrReply? then null else slot)
                && (slot != null && c.BrReply? ==> Filled(slot, FromTxn(mapped[..], c.txn)))
                && (slot != null && !c.BrReply? ==> unchanged(slot))
    {
      hide Get32, Get64, GetTxn, FromTxn, ServiceLog, Invoke, TxnBytes;
      stop, ptr, r, left := false, at, r0, slot;
      if cmd == BR_NOOP || cmd == BR_TRANSACTION_COMPLETE {
      } else if CountsWord(cmd) {
        ptr := ptr + 16;
      } else if cmd == BR_TRANSACTION_SEC_CTX || cmd == BR_TRANSACTION {
        var need := if cmd == BR_TRANSACTION_SEC_CTX then TXN_SEC_SIZE else TXN_SIZE;
        if size - ptr < need {
          stop := true;
          return;
        }
        var t := TxnSec(GetTxn(readbuf[..size], ptr),
                        if cmd == BR_TRANSACTION_SEC_CTX then Get64(readbuf[..size], ptr + TXN_SIZE) else 0);
        ptr := ptr + need;
        Serve(t, func, p);
      } else if cmd == BR_REPLY {
        if size - ptr < TXN_SIZE {
          stop := true;
          return;
        }
        var t := GetTxn(readbuf[..size], ptr);
        if slot != null {
          Fill(slot, t);
          left := null;
        }
        ptr := ptr + TXN_SIZE;
        r := 0;
      } else if cmd == BR_DEAD_BINDER {
        var cookie := Get64(readbuf[..size], ptr);
        ptr := ptr + 8;
        var (w, l) := death(world, cookie);
        world := w;
        Take(l);
      } else if cmd == BR_FAILED_REPLY || cmd == BR_DEAD_REPLY {
        r := -1;
      } else {
        stop := true;
      }
    }

    /** binder_parse over readbuf[..size], which holds the commands cs and the tail. */
    method Parse(bio: Bio?, readbuf: array<byte>, size: nat, func: Option<Handler<S>>,
                 ghost cs: seq<Br>, ghost tail: Tail) returns (r: int)
      requires size <= readbuf.Length && readbuf[..size] == Stream(cs, tail)
      requires AllFormed(cs, mapped.Length) && ValidTail(tail)
      modifies this`world, this`log, bio
      ensures var p := Parser.Parse(Hooks(func, death, stack), mapped[..], old(world), old(log), cs, tail);
              && r == p.r && world == p.world && log == p.log
              && (bio != null && p.bio.Some? ==> Filled(bio, p.bio.value))
              && (bio != null && p.bio.None? ==> unchanged(bio))
    {
      hide Filled, Stream, Get32, Get64, GetTxn, BrBytes, Payload, FromTxn, ServiceLog, Invoke;
      ghost var hooks := Hooks(func, death, stack);
      ghost var p := Start(world, log);
      ghost var rest := cs;
      ghost var b := readbuf[..size];
      var ptr, slot := 0, bio;
      r := 1;
      while ptr < size
        invariant ptr <= size && b == readbuf[..size] && b[ptr..] == Stream(rest, tail)
        invariant AllFormed(rest, mapped.Length)
        invariant !p.halted && p.r == r && p.world == world && p.log == log
        invariant slot == if p.bio.None? then bio else null
        invariant bio != null && p.bio.None? ==> unchanged(bio)
        invariant bio != null && p.bio.Some? ==> Filled(bio, p.bio.value)
        invariant Fold(hooks, mapped[..], p, rest) == Fold(hooks, mapped[..], Start(old(world), old(log)), cs)
      {
        if rest == [] {
          TailOf(b, ptr, tail);
        } else {
          HeadOf(b, ptr, rest, tail);
          assert rest[0] in rest;
        }
        ghost var cut := rest == [];
        ghost var c := if cut then Noop else rest[0];
        var cmd := Get32(readbuf[..size], ptr);
        var stop;
        stop, ptr, r, slot := Dispatch(cmd, slot, readbuf, ptr + 4, size, func, r, p, c, cut);
        if stop {
          if !cut {
            FoldHalted(hooks, mapped[..], Step(hooks, mapped[..], p, c), rest[1..]);
          }
          return -1;
        }
        p := Step(hooks, mapped[..], p, c);
        rest := rest[1..];
      }
      EmptyStream(rest, tail);
    }

    method Acquire(handle: u32)
      modifies this`log
      ensures log == old(log) + [Bc.Acquire(handle)]
    {
      HandleRead(BC_ACQUIRE, handle, []);
      Write(HandleCommand(BC_ACQUIRE, handle), []);
    }

    method Release(handle: u32)
      modifies this`log
      ensures log == old(log) + [Bc.Release(handle)]
    {
      HandleRead(BC_RELEASE, handle, []);
      Write(HandleCommand(BC_RELEASE, handle), []);
    }

    method LinkToDeath(handle: u32, cookie: u64)
      modifies this`log
      ensures log == old(log) + [RequestDeath(handle, cookie)]
    {
      DeathRead(handle, cookie, []);
      Write(DeathCommand(handle, cookie), []);
    }

    /** binder_done: frees a shared reply once; repeating it does nothing. */
    method Done(reply: Bio)
      modifies this`log, reply`flags
      ensures log == old(log) + if old(reply.flags.shared) then [Bc.FreeBuffer(reply.data0)] else []
      ensures reply.flags == if old(reply.flags.shared) then Flags(false, false, false) else old(reply.flags)
    {
      if reply.flags.shared {
        FreeBuffer(reply.data0);
        reply.flags := CLEAN;
      }
    }

    ghost predicate ValidScript()
      reads this
    {
      ValidRounds(rounds, mapped.Length)
    }

    /** The BINDER_WRITE_READ ioctl: the driver takes a prefix of what is left of the write
        buffer, and fills the mapped area and the read buffer. */
    method Ioctl(readbuf: array<byte>, write: seq<byte>, consumed: nat)
      returns (ok: bool, done: nat, got: nat)
      requires rounds != [] && ValidScript() && readbuf.Length == READ_SIZE && readbuf != mapped && consumed <= |write|
      modifies this`rounds, this`taken, readbuf, mapped
      ensures rounds == old(rounds)[1..]
      ensures done == Min(|write|, consumed + old(rounds)[0].take) && taken == old(taken) + write[consumed..done]
      ensures ok == old(rounds)[0].ok
      ensures ok ==> got <= READ_SIZE && mapped[..] == old(rounds)[0].area
                     && readbuf[..got] == Stream(old(rounds)[0].cs, old(rounds)[0].tail)
    {
      var r := rounds[0];
      assert r in rounds;
      rounds := rounds[1..];
      done := Min(|write|, consumed + r.take);
      taken := taken + write[consumed..done];
      ok := r.ok;
      got := 0;
      if ok {
        var s := Stream(r.cs, r.tail);
        got := |s|;
        forall k | 0 <= k < mapped.Length { mapped[k] := r.area[k]; }
        forall k | 0 <= k < got { readbuf[k] := s[k]; }
      }
    }

    /** The write buffer of binder_call; half of the target union and three fields hold what the
        stack held. */
    static function CallBytes(target: u32, code: u32, dataSize: u64, offsetsSize: u64, data0: u64, offs0: u64,
                              junk: Junk): (b: seq<byte>)
      ensures |b| == 4 + TXN_SIZE
    {
      Le32(BC_TRANSACTION)
      + TxnBytes(Txn((target as int) + TWO32 * junk.hole, junk.cookie, code, 0, junk.pid, junk.euid, dataSize,
                     offsetsSize, data0, offs0))
    }

    /** The write buffer of a call of msg. */
    ghost function Packed(msg: Bio, target: u32, code: u32, junk: Junk): seq<byte>
      requires msg.ValidOut()
      reads msg
    {
      CallBytes(target, code, msg.data - msg.data0, msg.offs - msg.offs0, msg.data0, msg.offs0, junk)
    }

    /** One turn of binder_call's loop. */
    method CallRound(reply: Bio, readbuf: array<byte>, write: seq<byte>, consumed: nat) returns (r: int, done: nat)
      requires rounds != [] && ValidScript() && readbuf.Length == READ_SIZE && readbuf != mapped && consumed <= |write|
      modifies this`world, this`log, this`rounds, this`taken, reply, mapped, readbuf
      ensures old(rounds[0] in rounds)
      ensures rounds == old(rounds)[1..]
      ensures done == Min(|write|, consumed + old(rounds)[0].take) && taken == old(taken) + write[consumed..done]
      ensures var p := Turn(Hooks(None, death, stack), old(rounds)[0], old(world), old(log));
              && r == p.r && world == p.world && log == p.log
              && (r == 0 ==> p.bio.Some? && Filled(reply, p.bio.value))
    {
      hide Stream, FromTxn, Fold, Filled;
      ghost var q := rounds[0];
      assert q in rounds;
      var ok, got;
      ok, done, got := Ioctl(readbuf, write, consumed);
      if !ok {
        return -1, done;
      }
      r := Parse(reply, readbuf, got, None, q.cs, q.tail);
      if r == 0 {
        ZeroHasReply(Hooks(None, death, stack), q.area, old(world), old(log), q.cs, q.tail);
      }
    }

    /** binder_call. A message that overflowed is refused before any ioctl. Otherwise the
        transaction's bytes go to the driver at most once each, in order, over all rounds. */
    method Call(msg: Bio, reply: Bio, target: u32, code: u32) returns (res: Option<int>, ghost junk: Junk)
      requires ValidScript() && (!msg.flags.overflow ==> msg.ValidOut())
      modifies this`world, this`log, this`rounds, this`taken, this`offered, reply, mapped
      ensures old(msg.flags.overflow) ==>
                && res == Some(-1) && reply.flags == Flags(false, false, true)
                && unchanged(this) && mapped[..] == old(mapped[..])
      ensures !old(msg.flags.overflow) ==>
                var run := Calling(Hooks(None, death, stack), mapped.Length, old(world), old(log), old(rounds));
                && run.used <= |old(rounds)| && rounds == old(rounds)[run.used..]
                && world == run.world && log == run.log
                && offered == old(offered)
                   + [Offer(target, code, 0, old(msg.Written()).bytes, old(msg.Written()).offsets)]
                && taken == old(taken) + Prefix(old(Packed(msg, target, code, junk)), Takes(old(rounds)[..run.used]))
                && res == (match run.end case Blocked => None case CallFailed => Some(-1) case Replied(_) => Some(0))
                && (run.end.CallFailed? ==> reply.flags == Flags(false, false, true))
                && (run.end.Replied? ==> Filled(reply, run.end.reply))
    {
      if msg.flags.overflow {
        reply.Zero();
        return Some(-1), Junk(0, 0, 0, 0);
      }
      hide Packed, Calling, Filled, Bio.Written, Prefix;
      var write;
      write, junk := Prepare(msg, target, code);
      res := Transact(reply, write);
    }

    /** The write buffer of a call, with whatever its uninitialised fields hold, presented to the
        driver, which reads a transaction out of it. */
    method Prepare(msg: Bio, target: u32, code: u32) returns (write: seq<byte>, ghost junk: Junk)
      requires msg.ValidOut()
      modifies this`offered
      ensures write == Packed(msg, target, code, junk)
      ensures offered == old(offered) + [Offer(target, code, 0, msg.Written().bytes, msg.Written().offsets)]
    {
      hide CallBytes, ReadOffer, Bio.Written;
      var hole: u32, cookie: u64, pid: u32, euid: u32 := *, *, *, *;
      var stackJunk := Junk(hole, cookie, pid, euid);
      junk := stackJunk;
      write := CallBytes(target, code, msg.data - msg.data0, msg.offs - msg.offs0, msg.data0, msg.offs0, stackJunk);
      Offering(msg, target, code, stackJunk);
      var offer := ReadOffer(write, msg.mem[..]);
      if offer.Some? {
        offered := offered + [offer.value];
      }
    }

    /** The driver reads the transaction out of the write buffer: whatever the uninitialised
        fields hold, the target, the code, no flags, and the message the pointers lead to. */
    lemma Offering(msg: Bio, target: u32, code: u32, junk: Junk)
      requires msg.ValidOut()
      ensures ReadOffer(CallBytes(target, code, msg.data - msg.data0, msg.offs - msg.offs0, msg.data0, msg.offs0, junk),
                        msg.mem[..])
           == Some(Offer(target, code, 0, msg.Written().bytes, msg.Written().offsets))
    {
      hide ReadOffer, TxnBytes, Table, Le32;
      var t := Txn((target as int) + TWO32 * junk.hole, junk.cookie, code, 0, junk.pid, junk.euid,
                   msg.data - msg.data0, msg.offs - msg.offs0, msg.data0, msg.offs0);
      LowerHalf(target, junk.hole);
      OfferRead(t, msg.mem[..]);
    }

    /** The for-loop of binder_call. */
    method Transact(reply: Bio, write: seq<byte>) returns (res: Option<int>)
      requires ValidScript()
      modifies this`world, this`log, this`rounds, this`taken, reply, mapped
      ensures var run := Calling(Hooks(None, death, stack), mapped.Length, old(world), old(log), old(rounds));
              && run.used <= |old(rounds)| && rounds == old(rounds)[run.used..]
              && world == run.world && log == run.log
              && taken == old(taken) + Prefix(write, Takes(old(rounds)[..run.used]))
              && res == (match run.end case Blocked => None case CallFailed => Some(-1) case Replied(_) => Some(0))
              && (run.end.CallFailed? ==> reply.flags == Flags(false, false, true))
              && (run.end.Replied? ==> Filled(reply, run.end.reply))
    {
      hide Turn, Filled, ValidRound;
      var consumed := 0;
      var readbuf := new byte[READ_SIZE];
      ghost var hooks := Hooks(None, death, stack);
      ghost var script, n := rounds, 0;
      ghost var run := Calling(hooks, mapped.Length, world, log, rounds);
      CallUses(hooks, mapped.Length, world, log, rounds);
      while rounds != []
        invariant n <= |script| && rounds == script[n..] && ValidScript() && fresh(readbuf)
        invariant consumed == Min(|write|, Takes(script[..n])) && taken == old(taken) + write[..consumed]
        invariant var rest := Calling(hooks, mapped.Length, world, log, rounds);
                  run == rest.(used := rest.used + n)
        decreases |rounds|
      {
        TakesNext(script, n);
        var r, done := CallRound(reply, readbuf, write, consumed);
        assert write[..consumed] + write[consumed..done] == write[..done];
        consumed := done;
        n := n + 1;
        if r == 0 {
          return Some(0);
        }
        if r < 0 {
          reply.Zero();
          return Some(-1);
        }
      }
      return None;
    }

    /** binder_loop. The result tells whether the loop ended before the script did. */
    method Loop(func: Handler<S>) returns (stopped: bool)
      requires ValidScript()
      modifies this`world, this`log, this`rounds, this`taken, mapped
      ensures var run := Looping(Hooks(Some(func), death, stack), mapped.Length, old(world),
                                 old(log) + [EnterLooper], old(rounds));
              && run.used <= |old(rounds)| && rounds == old(rounds)[run.used..]
              && world == run.world && log == run.log && stopped == run.stopped && taken == old(taken)
    {
      hide Stream, Fold, ValidRound;
      var readbuf := new byte[READ_SIZE];
      LooperRead([]);
      Write(Le32(BC_ENTER_LOOPER), []);
      ghost var hooks := Hooks(Some(func), death, stack);
      ghost var script, n := rounds, 0;
      ghost var run := Looping(hooks, mapped.Length, world, log, rounds);
      LoopStops(hooks, mapped.Length, world, log, rounds);
      while rounds != []
        invariant n <= |script| && rounds == script[n..] && ValidScript() && fresh(readbuf) && taken == old(taken)
        invariant var rest := Looping(hooks, mapped.Length, world, log, rounds);
                  run == rest.(used := rest.used + n)
        decreases |rounds|
      {
        var r := LoopRound(readbuf, func);
        n := n + 1;
        if r <= 0 {
          return true;
        }
      }
      return false;
    }

    /** One turn of binder_loop: nothing to write, and no binder_io for a reply. */
    method LoopRound(readbuf: array<byte>, func: Handler<S>) returns (r: int)
      requires rounds != [] && ValidScript() && readbuf.Length == READ_SIZE && readbuf != mapped
      modifies this`world, this`log, this`rounds, this`taken, mapped, readbuf
      ensures old(rounds[0] in rounds)
      ensures rounds == old(rounds)[1..] && taken == old(taken)
      ensures var p := Turn(Hooks(Some(func), death, stack), old(rounds)[0], old(world), old(log));
              r == p.r && world == p.world && log == p.log
    {
      hide Stream, Fold;
      ghost var q := rounds[0];
      assert q in rounds;
      var ok, done, got := Ioctl(readbuf, [], 0);
      if !ok {
        return -1;
      }
      r := Parse(null, readbuf, got, Some(func), q.cs, q.tail);
    }
  }
}
