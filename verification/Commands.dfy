/** The command streams between user space and the binder driver: the BR_* commands read and
    their byte images, the BC_* commands written. Command words and structure layouts are those
    of linux/android/binder.h, which the repository includes but does not hold. */
module Commands {
  import opened Words
  import opened Reader

  const TF_ONE_WAY: u32 := 0x01
  const TF_STATUS_CODE: u32 := 0x08

  const TXN_SIZE: nat := 64
  const TXN_SEC_SIZE: nat := 72

  /** struct binder_transaction_data. */
  datatype Txn = Txn(target: u64, cookie: u64, code: u32, flags: u32, senderPid: u32, senderEuid: u32,
                     dataSize: u64, offsetsSize: u64, buffer: u64, offsets: u64)

  /** struct binder_transaction_data_secctx. */
  datatype TxnSec = TxnSec(txn: Txn, secctx: u64)

  predicate OneWay(t: Txn) {
    t.flags / TF_ONE_WAY % 2 == 1
  }

  function TxnBytes(t: Txn): (b: seq<byte>)
    ensures |b| == TXN_SIZE
  {
    Le64(t.target) + Le64(t.cookie) + Le32(t.code) + Le32(t.flags) + Le32(t.senderPid) + Le32(t.senderEuid)
    + Le64(t.dataSize) + Le64(t.offsetsSize) + Le64(t.buffer) + Le64(t.offsets)
  }

  function GetTxn(b: seq<byte>, at: nat): Txn
    requires at + TXN_SIZE <= |b|
  {
    Txn(Get64(b, at), Get64(b, at + 8), Get32(b, at + 16), Get32(b, at + 20), Get32(b, at + 24), Get32(b, at + 28),
        Get64(b, at + 32), Get64(b, at + 40), Get64(b, at + 48), Get64(b, at + 56))
  }

  /** The message a transaction delivers, read out of the mapped area. */
  predicate InRange(t: Txn, size: nat) {
    t.buffer + t.dataSize <= size && t.offsets + t.offsetsSize <= size
  }

  function FromTxn(mapped: seq<byte>, t: Txn): In
    requires InRange(t, |mapped|)
  {
    FromBuffer(mapped, t.buffer, t.dataSize, t.offsets, t.offsetsSize)
  }

  /** What user space writes: one entry for each BC_* command. A reply carries the bytes and
      offsets the driver copies out of the sender's buffer. */
  datatype Bc =
    | EnterLooper
    | FreeBuffer(buffer: u64)
    | Acquire(handle: u32)
    | Release(handle: u32)
    | RequestDeath(handle: u32, cookie: u64)
    | SendReply(flags: u32, bytes: seq<byte>, offsets: seq<nat>)

  const BC_TRANSACTION: u32 := 0x4040_6300
  const BC_REPLY: u32 := 0x4040_6301
  const BC_FREE_BUFFER: u32 := 0x4008_6303
  const BC_ACQUIRE: u32 := 0x4004_6305
  const BC_RELEASE: u32 := 0x4004_6306
  const BC_ENTER_LOOPER: u32 := 0x630c
  const BC_REQUEST_DEATH_NOTIFICATION: u32 := 0x400c_630e

  /** A transaction as the driver finds it: its target, code and flags, the message and its
      table. */
  datatype Offer = Offer(target: u32, code: u32, flags: u32, bytes: seq<byte>, offsets: seq<nat>)

  /** The transaction a write buffer starts with, read like a reply; the target is a handle, the
      lower half of its union. */
  function ReadOffer(b: seq<byte>, memory: seq<byte>): Option<Offer> {
    if |b| < 4 + TXN_SIZE || Get32(b, 0) != BC_TRANSACTION || !InRange(GetTxn(b, 4), |memory|) then None
    else
      var t := GetTxn(b, 4);
      Some(Offer(t.target % TWO32, t.code, t.flags, memory[t.buffer..t.buffer + t.dataSize],
                 Table(memory[t.offsets..t.offsets + t.offsetsSize / 8 * 8])))
  }

  lemma OfferRead(t: Txn, memory: seq<byte>)
    requires InRange(t, |memory|) && t.offsetsSize % 8 == 0
    ensures ReadOffer(Le32(BC_TRANSACTION) + TxnBytes(t), memory)
         == Some(Offer(t.target % TWO32, t.code, t.flags, memory[t.buffer..t.buffer + t.dataSize],
                       Table(memory[t.offsets..t.offsets + t.offsetsSize])))
  {
    hide Le32, Get32, GetTxn, TxnBytes, Table;
    var b := Le32(BC_TRANSACTION) + TxnBytes(t);
    FirstWord(b, BC_TRANSACTION, TxnBytes(t));
    assert b[4..4 + TXN_SIZE] == TxnBytes(t);
    ReadTxn(b, 4, t);
    assert t.offsetsSize / 8 * 8 == t.offsetsSize;
  }

  /** The command a write buffer starts with, as the driver reads it, and its length. A reply's
      pointers lead into the sender's memory. */
  function ReadBc(b: seq<byte>, memory: seq<byte>): (r: Option<(Bc, nat)>)
    ensures r.Some? ==> 0 < r.value.1 <= |b|
  {
    if |b| < 4 then None
    else
      var w := Get32(b, 0);
      if w == BC_ENTER_LOOPER then Some((EnterLooper, 4))
      else if w == BC_ACQUIRE && |b| >= 8 then Some((Acquire(Get32(b, 4)), 8))
      else if w == BC_RELEASE && |b| >= 8 then Some((Release(Get32(b, 4)), 8))
      else if w == BC_FREE_BUFFER && |b| >= 12 then Some((FreeBuffer(Get64(b, 4)), 12))
      else if w == BC_REQUEST_DEATH_NOTIFICATION && |b| >= 16 then Some((RequestDeath(Get32(b, 4), Get64(b, 8)), 16))
      else if w == BC_REPLY && |b| >= 4 + TXN_SIZE && InRange(GetTxn(b, 4), |memory|) then
        var t := GetTxn(b, 4);
        Some((SendReply(t.flags, memory[t.buffer..t.buffer + t.dataSize],
                        Table(memory[t.offsets..t.offsets + t.offsetsSize / 8 * 8])), 4 + TXN_SIZE))
      else None
  }

  /** The commands of a write buffer. */
  function Written(b: seq<byte>, memory: seq<byte>): seq<Bc>
    decreases |b|
  {
    var r := ReadBc(b, memory);
    if r.None? then [] else [r.value.0] + Written(b[r.value.1..], memory)
  }

  /** struct { uint32_t cmd; uint32_t handle; } */
  function HandleCommand(cmd: u32, handle: u32): (b: seq<byte>)
    ensures |b| == 8
  {
    Le32(cmd) + Le32(handle)
  }

  /** The packed commands of binder_free_buffer and binder_done. */
  function FreeCommand(buffer: u64): (b: seq<byte>)
    ensures |b| == 12
  {
    Le32(BC_FREE_BUFFER) + Le64(buffer)
  }

  /** The packed command of binder_link_to_death. */
  function DeathCommand(handle: u32, cookie: u64): (b: seq<byte>)
    ensures |b| == 16
  {
    Le32(BC_REQUEST_DEATH_NOTIFICATION) + Le32(handle) + Le64(cookie)
  }

  lemma FirstWord(b: seq<byte>, cmd: u32, rest: seq<byte>)
    requires b == Le32(cmd) + rest
    ensures |b| >= 4 && Get32(b, 0) == cmd
  {
    assert b[0..4] == Le32(cmd);
    ReadLe32(b, 0, cmd);
  }

  /** One command followed by others. */
  lemma WrittenNext(b: seq<byte>, rest: seq<byte>, memory: seq<byte>, c: Bc)
    requires b != [] && ReadBc(b + rest, memory) == Some((c, |b|))
    ensures Written(b + rest, memory) == [c] + Written(rest, memory)
  {
    assert (b + rest)[|b|..] == rest;
  }

  lemma NothingWritten(memory: seq<byte>)
    ensures Written([], memory) == []
  {
  }

  lemma HandleRead(cmd: u32, handle: u32, memory: seq<byte>)
    requires cmd == BC_ACQUIRE || cmd == BC_RELEASE
    ensures Written(HandleCommand(cmd, handle), memory)
            == [if cmd == BC_ACQUIRE then Acquire(handle) else Release(handle)]
  {
    var b := HandleCommand(cmd, handle);
    FirstWord(b, cmd, Le32(handle));
    assert b[4..8] == Le32(handle);
    ReadLe32(b, 4, handle);
    assert b + [] == b;
    hide Le32, Get32;
    WrittenNext(b, [], memory, if cmd == BC_ACQUIRE then Acquire(handle) else Release(handle));
  }

  lemma LooperRead(memory: seq<byte>)
    ensures Written(Le32(BC_ENTER_LOOPER), memory) == [EnterLooper]
  {
    var b := Le32(BC_ENTER_LOOPER);
    assert b + [] == b;
    FirstWord(b, BC_ENTER_LOOPER, []);
    WrittenNext(b, [], memory, EnterLooper);
  }

  lemma FreeRead(buffer: u64, rest: seq<byte>, memory: seq<byte>)
    ensures Written(FreeCommand(buffer) + rest, memory) == [FreeBuffer(buffer)] + Written(rest, memory)
  {
    var b := FreeCommand(buffer);
    var all := b + rest;
    assert all == Le32(BC_FREE_BUFFER) + (Le64(buffer) + rest);
    FirstWord(all, BC_FREE_BUFFER, Le64(buffer) + rest);
    assert all[4..12] == Le64(buffer);
    ReadLe64(all, 4, buffer);
    hide Le32, Le64, Get32, Get64;
    WrittenNext(b, rest, memory, FreeBuffer(buffer));
  }

  lemma DeathRead(handle: u32, cookie: u64, memory: seq<byte>)
    ensures Written(DeathCommand(handle, cookie), memory) == [RequestDeath(handle, cookie)]
  {
    var b := DeathCommand(handle, cookie);
    assert b == Le32(BC_REQUEST_DEATH_NOTIFICATION) + (Le32(handle) + Le64(cookie));
    FirstWord(b, BC_REQUEST_DEATH_NOTIFICATION, Le32(handle) + Le64(cookie));
    assert b[4..8] == Le32(handle) && b[8..16] == Le64(cookie);
    ReadLe32(b, 4, handle);
    ReadLe64(b, 8, cookie);
    assert b + [] == b;
    hide Le32, Le64, Get32, Get64;
    WrittenNext(b, [], memory, RequestDeath(handle, cookie));
  }

  lemma ReplyRead(t: Txn, memory: seq<byte>)
    requires InRange(t, |memory|) && t.offsetsSize % 8 == 0
    ensures Written(Le32(BC_REPLY) + TxnBytes(t), memory)
         == [SendReply(t.flags, memory[t.buffer..t.buffer + t.dataSize],
                       Table(memory[t.offsets..t.offsets + t.offsetsSize]))]
  {
    hide Le32, TxnBytes, Table, ReadBc;
    var b := Le32(BC_REPLY) + TxnBytes(t);
    ReplyHead(t, memory);
    assert b + [] == b;
    WrittenNext(b, [], memory, SendReply(t.flags, memory[t.buffer..t.buffer + t.dataSize],
                                         Table(memory[t.offsets..t.offsets + t.offsetsSize])));
  }

  lemma ReplyHead(t: Txn, memory: seq<byte>)
    requires InRange(t, |memory|) && t.offsetsSize % 8 == 0
    ensures ReadBc(Le32(BC_REPLY) + TxnBytes(t), memory)
         == Some((SendReply(t.flags, memory[t.buffer..t.buffer + t.dataSize],
                            Table(memory[t.offsets..t.offsets + t.offsetsSize])), 4 + TXN_SIZE))
  {
    hide Le32, Get32, GetTxn, TxnBytes, Table;
    var b := Le32(BC_REPLY) + TxnBytes(t);
    FirstWord(b, BC_REPLY, TxnBytes(t));
    assert b[4..4 + TXN_SIZE] == TxnBytes(t);
    ReadTxn(b, 4, t);
    assert t.offsetsSize / 8 * 8 == t.offsetsSize;
  }

  const BR_DEAD_REPLY: u32 := 0x7205
  const BR_TRANSACTION_COMPLETE: u32 := 0x7206
  const BR_NOOP: u32 := 0x720c
  const BR_FAILED_REPLY: u32 := 0x7211
  const BR_INCREFS: u32 := 0x8010_7207
  const BR_ACQUIRE: u32 := 0x8010_7208
  const BR_RELEASE: u32 := 0x8010_7209
  const BR_DECREFS: u32 := 0x8010_720a
  const BR_DEAD_BINDER: u32 := 0x8008_720f
  const BR_TRANSACTION: u32 := 0x8040_7202
  const BR_TRANSACTION_SEC_CTX: u32 := 0x8048_7202
  const BR_REPLY: u32 := 0x8040_7203

  /** What the driver sends. Counts stands for the four reference-count commands, whose
      payload is skipped; Unknown for any word the parser has no case for. */
  datatype Br =
    | Noop
    | TransactionComplete
    | Counts(word: u32, ptr: u64, cookie: u64)
    | Transaction(txn: Txn)
    | TransactionSec(sec: TxnSec)
    | BrReply(txn: Txn)
    | DeadBinder(cookie: u64)
    | FailedReply
    | DeadReply
    | Unknown(word: u32)

  predicate CountsWord(w: u32) {
    w == BR_INCREFS || w == BR_ACQUIRE || w == BR_RELEASE || w == BR_DECREFS
  }

  predicate KnownWord(w: u32) {
    || CountsWord(w) || w == BR_NOOP || w == BR_TRANSACTION_COMPLETE || w == BR_TRANSACTION
    || w == BR_TRANSACTION_SEC_CTX || w == BR_REPLY || w == BR_DEAD_BINDER || w == BR_FAILED_REPLY || w == BR_DEAD_REPLY
  }

  function Word(c: Br): u32 {
    match c
    case Noop => BR_NOOP
    case TransactionComplete => BR_TRANSACTION_COMPLETE
    case Counts(w, _, _) => w
    case Transaction(_) => BR_TRANSACTION
    case TransactionSec(_) => BR_TRANSACTION_SEC_CTX
    case BrReply(_) => BR_REPLY
    case DeadBinder(_) => BR_DEAD_BINDER
    case FailedReply => BR_FAILED_REPLY
    case DeadReply => BR_DEAD_REPLY
    case Unknown(w) => w
  }

  function Payload(c: Br): seq<byte> {
    match c
    case Counts(_, p, k) => Le64(p) + Le64(k)
    case Transaction(t) => TxnBytes(t)
    case TransactionSec(s) => TxnBytes(s.txn) + Le64(s.secctx)
    case BrReply(t) => TxnBytes(t)
    case DeadBinder(k) => Le64(k)
    case _ => []
  }

  function BrBytes(c: Br): (b: seq<byte>)
    ensures |b| >= 4
  {
    Le32(Word(c)) + Payload(c)
  }

  /** A command the driver may send while the mapped area has the given size. */
  predicate WellFormed(c: Br, size: nat) {
    match c
    case Counts(w, _, _) => CountsWord(w)
    case Transaction(t) => InRange(t, size)
    case TransactionSec(s) => InRange(s.txn, size)
    case BrReply(t) => InRange(t, size)
    case Unknown(w) => !KnownWord(w)
    case _ => true
  }

  function Encode(cs: seq<Br>): seq<byte> {
    if cs == [] then [] else BrBytes(cs[0]) + Encode(cs[1..])
  }

  /** How a stream may end: with its last command whole, or with a transaction or reply whose
      payload was cut short. */
  datatype Tail = Whole | Cut(word: u32, partial: seq<byte>)

  predicate ValidTail(t: Tail) {
    t.Cut? ==>
      || (t.word == BR_TRANSACTION && |t.partial| < TXN_SIZE)
      || (t.word == BR_REPLY && |t.partial| < TXN_SIZE)
      || (t.word == BR_TRANSACTION_SEC_CTX && |t.partial| < TXN_SEC_SIZE)
  }

  function TailBytes(t: Tail): seq<byte> {
    if t.Whole? then [] else Le32(t.word) + t.partial
  }

  function Stream(cs: seq<Br>, t: Tail): seq<byte> {
    Encode(cs) + TailBytes(t)
  }

  /** The transaction a command carries, if any. */
  predicate Carries(c: Br) {
    c.Transaction? || c.TransactionSec?
  }

  function Carried(c: Br): TxnSec
    requires Carries(c)
  {
    if c.Transaction? then TxnSec(c.txn, 0) else c.sec
  }

  function Transactions(cs: seq<Br>): seq<TxnSec> {
    if cs == [] then []
    else if Carries(cs[0]) then [Carried(cs[0])] + Transactions(cs[1..])
    else Transactions(cs[1..])
  }

  /** Commands that deliver a buffer: transactions and replies. */
  function Deliveries(cs: seq<Br>): nat {
    if cs == [] then 0
    else (if Carries(cs[0]) || cs[0].BrReply? then 1 else 0) + Deliveries(cs[1..])
  }

  lemma {:induction false} DeliveriesBound(cs: seq<Br>)
    ensures Deliveries(cs) * (4 + TXN_SIZE) <= |Encode(cs)|
  {
    if cs != [] {
      DeliveriesBound(cs[1..]);
      assert |Encode(cs)| == |BrBytes(cs[0])| + |Encode(cs[1..])|;
    }
  }

  /** A read buffer of 128 bytes holds at most one transaction or reply. */
  lemma AtMostOneDelivery(cs: seq<Br>)
    requires |Encode(cs)| <= 128
    ensures Deliveries(cs) <= 1
  {
    DeliveriesBound(cs);
  }

  /** The reads of a transaction give back its fields. */
  lemma ReadTxn(b: seq<byte>, at: nat, t: Txn)
    requires at + TXN_SIZE <= |b| && b[at..at + TXN_SIZE] == TxnBytes(t)
    ensures GetTxn(b, at) == t
  {
    hide Le32, Le64, Get32, Get64;
    var s := b[at..at + TXN_SIZE];
    Field64(b, at, s, 0, t.target);
    Field64(b, at, s, 8, t.cookie);
    Field32(b, at, s, 16, t.code);
    Field32(b, at, s, 20, t.flags);
    Field32(b, at, s, 24, t.senderPid);
    Field32(b, at, s, 28, t.senderEuid);
    Field64(b, at, s, 32, t.dataSize);
    Field64(b, at, s, 40, t.offsetsSize);
    Field64(b, at, s, 48, t.buffer);
    Field64(b, at, s, 56, t.offsets);
  }

  lemma Field64(b: seq<byte>, at: nat, s: seq<byte>, off: nat, v: u64)
    requires off + 8 <= |s| && at + |s| <= |b| && b[at..at + |s|] == s && s[off..off + 8] == Le64(v)
    ensures Get64(b, at + off) == v
  {
    hide Le64, Get64;
    SliceOfSlice(b, at, |s|, off, off + 8);
    ReadLe64(b, at + off, v);
  }

  lemma Field32(b: seq<byte>, at: nat, s: seq<byte>, off: nat, v: u32)
    requires off + 4 <= |s| && at + |s| <= |b| && b[at..at + |s|] == s && s[off..off + 4] == Le32(v)
    ensures Get32(b, at + off) == v
  {
    hide Le32, Get32;
    SliceOfSlice(b, at, |s|, off, off + 4);
    ReadLe32(b, at + off, v);
  }

  /** The payload fields of a command, read where its payload lies. */
  lemma ReadPayload(b: seq<byte>, at: nat, c: Br)
    requires at + |Payload(c)| <= |b| && b[at..at + |Payload(c)|] == Payload(c)
    ensures c.Transaction? || c.BrReply? ==> at + TXN_SIZE <= |b| && GetTxn(b, at) == c.txn
    ensures c.TransactionSec? ==>
              && at + TXN_SEC_SIZE <= |b| && GetTxn(b, at) == c.sec.txn
              && Get64(b, at + TXN_SIZE) == c.sec.secctx
    ensures c.DeadBinder? ==> at + 8 <= |b| && Get64(b, at) == c.cookie
    ensures |Payload(c)| == (match c
                             case Counts(_, _, _) => 16
                             case Transaction(_) => TXN_SIZE
                             case TransactionSec(_) => TXN_SEC_SIZE
                             case BrReply(_) => TXN_SIZE
                             case DeadBinder(_) => 8
                             case _ => 0)
  {
    hide Le64, Get64, GetTxn, TxnBytes;
    var p := Payload(c);
    match c
    case Transaction(t) => ReadTxn(b, at, t);
    case BrReply(t) => ReadTxn(b, at, t);
    case TransactionSec(q) =>
      SliceOfSlice(b, at, |p|, 0, TXN_SIZE);
      assert p[0..TXN_SIZE] == TxnBytes(q.txn);
      ReadTxn(b, at, q.txn);
      assert p[TXN_SIZE..TXN_SIZE + 8] == Le64(q.secctx);
      Field64(b, at, p, TXN_SIZE, q.secctx);
    case DeadBinder(k) =>
      assert p[0..8] == Le64(k);
      Field64(b, at, p, 0, k);
    case _ =>
  }

  /** A stream that starts with a command: its word, its payload fields, and the rest. */
  lemma ReadHead(b: seq<byte>, at: nat, c: Br, rest: seq<byte>)
    requires at <= |b| && b[at..] == BrBytes(c) + rest
    ensures at + |BrBytes(c)| <= |b| && Get32(b, at) == Word(c) && b[at + |BrBytes(c)|..] == rest
    ensures c.Transaction? || c.BrReply? ==> at + 4 + TXN_SIZE <= |b| && GetTxn(b, at + 4) == c.txn
    ensures c.TransactionSec? ==>
              && at + 4 + TXN_SEC_SIZE <= |b| && GetTxn(b, at + 4) == c.sec.txn
              && Get64(b, at + 4 + TXN_SIZE) == c.sec.secctx
    ensures c.DeadBinder? ==> at + 12 <= |b| && Get64(b, at + 4) == c.cookie
    ensures |BrBytes(c)| == (match c
                             case Counts(_, _, _) => 20
                             case Transaction(_) => 4 + TXN_SIZE
                             case TransactionSec(_) => 4 + TXN_SEC_SIZE
                             case BrReply(_) => 4 + TXN_SIZE
                             case DeadBinder(_) => 12
                             case _ => 4)
  {
    hide Le32, Get32, Le64, Get64, GetTxn, Payload;
    var s := BrBytes(c);
    var p := Payload(c);
    assert b[at..at + |s|] == s;
    assert s[0..4] == Le32(Word(c));
    Field32(b, at, s, 0, Word(c));
    SliceOfSlice(b, at, |s|, 4, |s|);
    assert s[4..] == p;
    assert b[at + 4..at + 4 + |p|] == p;
    ReadPayload(b, at + 4, c);
  }
}
