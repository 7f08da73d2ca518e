/** The formats in numbers: what the bytes of words, structures, command words and names are,
    apart from the functions that write and read them. Structure layouts and the coding of command
    words are those of linux/android/binder.h. */
module Layout {
  import opened Words
  import opened Writer
  import opened Commands
  import opened Manager

  /** The number a run of bytes stands for, lowest byte first. */
  function Value(b: seq<byte>): nat {
    if b == [] then 0 else (b[0] as int) + 256 * Value(b[1..])
  }

  lemma ValueOf2(b: seq<byte>)
    requires |b| == 2
    ensures Value(b) == (b[0] as int) + 256 * (b[1] as int)
  {
    var t := b[1..];
    assert Value(t) == t[0] && t[1..] == [];
  }

  lemma ValueOf4(b: seq<byte>)
    requires |b| == 4
    ensures Value(b) == (b[0] as int) + 256 * (b[1] as int) + 0x1_0000 * (b[2] as int) + 0x100_0000 * (b[3] as int)
  {
    ValueOf2(b[2..]);
    var t := b[1..];
    assert t[1..] == b[2..];
    assert Value(t) == (t[0] as int) + 256 * Value(b[2..]);
  }

  lemma ValueOf8(b: seq<byte>)
    requires |b| == 8
    ensures Value(b) == Value(b[..4]) + TWO32 * Value(b[4..])
  {
    ValueOf4(b[..4]);
    var t, u, v := b[1..], b[2..], b[3..];
    assert t[1..] == u && u[1..] == v && v[1..] == b[4..];
    assert Value(b) == (b[0] as int) + 256 * Value(t);
    assert Value(t) == (b[1] as int) + 256 * Value(u);
    assert Value(u) == (b[2] as int) + 256 * Value(v);
    assert Value(v) == (b[3] as int) + 256 * Value(b[4..]);
  }

  /** Words are stored lowest byte first: 16, 32 and 64 bits. */
  lemma LittleEndian(n: u64)
    ensures n < TWO16 ==> Value(Le16(n)) == n
    ensures n < TWO32 ==> Value(Le32(n)) == n
    ensures Value(Le64(n)) == n
  {
    if n < TWO16 { ValueOf2(Le16(n)); }
    if n < TWO32 { Word32(n); }
    Word32(n % TWO32);
    Word32(n / TWO32);
    ValueOf8(Le64(n));
    assert Le64(n)[..4] == Le32(n % TWO32) && Le64(n)[4..] == Le32(n / TWO32);
  }

  lemma Word32(n: u32)
    ensures Value(Le32(n)) == n
  {
    ValueOf4(Le32(n));
  }

  /** They are read as they are stored, wherever they stand. */
  lemma ReadsLittleEndian(b: seq<byte>, at: nat)
    ensures at + 2 <= |b| ==> Get16(b, at) == Value(b[at..at + 2])
    ensures at + 4 <= |b| ==> Get32(b, at) == Value(b[at..at + 4])
    ensures at + 8 <= |b| ==> Get64(b, at) == Value(b[at..at + 8])
  {
    if at + 2 <= |b| { ValueOf2(b[at..at + 2]); }
    if at + 4 <= |b| { ValueOf4(b[at..at + 4]); }
    if at + 8 <= |b| {
      var s := b[at..at + 8];
      ValueOf8(s);
      ValueOf4(b[at + 4..at + 8]);
      assert s[..4] == b[at..at + 4] && s[4..] == b[at + 4..at + 8];
    }
  }

  /** struct binder_transaction_data: where its fields stand among its 64 bytes. */
  lemma TransactionLayout(t: Txn)
    ensures var b := TxnBytes(t);
            && Get64(b, 0) == t.target && Get64(b, 8) == t.cookie
            && Get32(b, 16) == t.code && Get32(b, 20) == t.flags
            && Get32(b, 24) == t.senderPid && Get32(b, 28) == t.senderEuid
            && Get64(b, 32) == t.dataSize && Get64(b, 40) == t.offsetsSize
            && Get64(b, 48) == t.buffer && Get64(b, 56) == t.offsets
  {
    hide Le32, Le64, Get32, Get64;
    var b := TxnBytes(t);
    assert b[0..|b|] == b;
    Field64(b, 0, b, 0, t.target);
    Field64(b, 0, b, 8, t.cookie);
    Field32(b, 0, b, 16, t.code);
    Field32(b, 0, b, 20, t.flags);
    Field32(b, 0, b, 24, t.senderPid);
    Field32(b, 0, b, 28, t.senderEuid);
    Field64(b, 0, b, 32, t.dataSize);
    Field64(b, 0, b, 40, t.offsetsSize);
    Field64(b, 0, b, 48, t.buffer);
    Field64(b, 0, b, 56, t.offsets);
  }

  /** struct flat_binder_object: the type, the flags for a priority of 127 and for taking file
      descriptors, the pointer or handle, and a cookie of 0. A handle leaves the upper half of its
      union as it was. */
  lemma ObjectLayout(w: Wire, hole: seq<byte>)
    requires |hole| == 4
    ensures var b := ObjectBytes(w, hole);
            && |b| == 24
            && b[0..4] == [0x85, '*' as int, if w.Binder? then 'b' as int else 'h' as int, 's' as int]
            && Get32(b, 4) == 0x7f + 0x100 && Get64(b, 16) == 0
            && (w.Binder? ==> Get64(b, 8) == w.ptr)
            && (w.Handle? ==> Get32(b, 8) == w.handle && b[12..16] == hole)
  {
    var b := ObjectBytes(w, hole);
    assert b[0..|b|] == b;
    assert b[0..4] == Le32(if w.Binder? then BINDER_TYPE_BINDER else BINDER_TYPE_HANDLE);
    TypeWords();
    hide Le32, Le64, Get32, Get64;
    Field32(b, 0, b, 4, OBJ_FLAGS);
    Field64(b, 0, b, 16, 0);
    match w
    case Binder(p) => Field64(b, 0, b, 8, p);
    case Handle(h) =>
      Field32(b, 0, b, 8, h);
      assert b[12..16] == hole;
  }

  lemma TypeWords()
    ensures Le32(BINDER_TYPE_BINDER) == [0x85, '*' as int, 'b' as int, 's' as int]
    ensures Le32(BINDER_TYPE_HANDLE) == [0x85, '*' as int, 'h' as int, 's' as int]
  {
  }

  /** The coding of ioctl-style words: direction, size of the payload, group and number. */
  function Coded(dir: nat, size: nat, group: char, nr: nat): nat {
    dir * 0x4000_0000 + size * 0x1_0000 + (group as int) * 0x100 + nr
  }

  /** The commands user space writes (direction 1, group c) and the driver sends (2, group r),
      each with the size of its payload. */
  lemma CommandWords()
    ensures BC_TRANSACTION == Coded(1, 64, 'c', 0) && BC_REPLY == Coded(1, 64, 'c', 1)
    ensures BC_FREE_BUFFER == Coded(1, 8, 'c', 3) && BC_ACQUIRE == Coded(1, 4, 'c', 5)
    ensures BC_RELEASE == Coded(1, 4, 'c', 6) && BC_ENTER_LOOPER == Coded(0, 0, 'c', 12)
    ensures BC_REQUEST_DEATH_NOTIFICATION == Coded(1, 12, 'c', 14)
    ensures BR_TRANSACTION == Coded(2, 64, 'r', 2) && BR_TRANSACTION_SEC_CTX == Coded(2, 72, 'r', 2)
    ensures BR_REPLY == Coded(2, 64, 'r', 3) && BR_DEAD_REPLY == Coded(0, 0, 'r', 5)
    ensures BR_TRANSACTION_COMPLETE == Coded(0, 0, 'r', 6) && BR_NOOP == Coded(0, 0, 'r', 12)
    ensures BR_INCREFS == Coded(2, 16, 'r', 7) && BR_ACQUIRE == Coded(2, 16, 'r', 8)
    ensures BR_RELEASE == Coded(2, 16, 'r', 9) && BR_DECREFS == Coded(2, 16, 'r', 10)
    ensures BR_DEAD_BINDER == Coded(2, 8, 'r', 15) && BR_FAILED_REPLY == Coded(0, 0, 'r', 17)
  {
  }

  /** The manager's interface name, and its ping. */
  lemma ManagerNames()
    ensures |MANAGER_ID| == 26
    ensures forall k :: 0 <= k < 26 ==> MANAGER_ID[k] == "android.os.IServiceManager"[k] as int
    ensures Le32(PING_TRANSACTION) == ['G' as int, 'N' as int, 'P' as int, '_' as int]
  {
  }
}
