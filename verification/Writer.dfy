/** The writing half of binder_io, on values: what a sequence of bio_put_* calls leaves in the
    buffer. The class BinderIo.Bio is proved to compute these functions in place. */
module Writer {
  import opened Words

  datatype Flags = Flags(shared: bool, overflow: bool, ioerror: bool)

  const CLEAN := Flags(false, false, false)
  const SHARED := Flags(true, false, false)
  const IOERROR := Flags(false, false, true)

  const BINDER_TYPE_BINDER: u32 := 0x7362_2a85
  const BINDER_TYPE_HANDLE: u32 := 0x7368_2a85
  const OBJ_FLAGS: u32 := 0x17f
  const OBJ_SIZE: nat := 24
  const NULL_STRING: u32 := 0xffff_ffff
  const MAX_UNITS: nat := 0x2000_0000

  /** An outgoing binder_io: the bytes written, the bytes of the data region not yet reached
      (with whatever they held before), the offset table so far, and the entries left in it. */
  datatype Out = Out(bytes: seq<byte>, room: seq<byte>, offsets: seq<nat>, slots: nat, flags: Flags)

  function Overflowed(o: Out): Out {
    o.(flags := o.flags.(overflow := true))
  }

  /** bio_init on a buffer of |buffer| bytes, when the offset table fits. */
  function Fresh(buffer: seq<byte>, maxoffs: nat): Out
    requires 8 * maxoffs <= |buffer|
  {
    Out([], buffer[8 * maxoffs..], [], maxoffs, CLEAN)
  }

  /** bio_alloc followed by a store of the contents; the padding keeps its old bytes. */
  function Put(o: Out, content: seq<byte>): Out
    requires |content| <= TWO32
  {
    Align4Exact(|content|);
    var n := Align4(|content|);
    if n > |o.room| then Overflowed(o)
    else o.(bytes := o.bytes + content + o.room[|content|..n], room := o.room[n..])
  }

  function PutUint32(o: Out, n: u32): Out {
    Put(o, Le32(n))
  }

  /** What a flat_binder_object refers to: a local object or a handle. */
  datatype Wire = Binder(ptr: u64) | Handle(handle: u32)

  /** The 24 bytes of a flat_binder_object. Storing a 32-bit handle into the 64-bit union
      leaves the union's upper half (the hole) as it was. */
  function ObjectBytes(w: Wire, hole: seq<byte>): (b: seq<byte>)
    requires |hole| == 4
    ensures |b| == OBJ_SIZE
  {
    match w
    case Binder(p) => Le32(BINDER_TYPE_BINDER) + Le32(OBJ_FLAGS) + Le64(p) + Le64(0)
    case Handle(h) => Le32(BINDER_TYPE_HANDLE) + Le32(OBJ_FLAGS) + (Le32(h) + hole) + Le64(0)
  }

  /** bio_alloc_obj and the field stores: without a free table entry the 24 bytes are
      consumed all the same. */
  function PutObject(o: Out, w: Wire): Out {
    if OBJ_SIZE > |o.room| then Overflowed(o)
    else if o.slots == 0 then
      Overflowed(o.(bytes := o.bytes + o.room[..OBJ_SIZE], room := o.room[OBJ_SIZE..]))
    else
      o.(bytes := o.bytes + ObjectBytes(w, o.room[12..16]), room := o.room[OBJ_SIZE..],
         offsets := o.offsets + [|o.bytes|], slots := o.slots - 1)
  }

  function PutObj(o: Out, ptr: u64): Out {
    PutObject(o, Binder(ptr))
  }

  /** A zero handle is written as an object, but not listed in the table. */
  function PutRef(o: Out, handle: u32): Out {
    if handle != 0 then PutObject(o, Handle(handle))
    else if OBJ_SIZE > |o.room| then Overflowed(o)
    else Put(o, ObjectBytes(Handle(0), o.room[12..16]))
  }

  /** A C string argument: the memory behind the pointer, or a null pointer. */
  predicate CString(s: Option<seq<int>>) {
    s.Some? ==> 0 in s.value
  }

  predicate Storable(s: Option<seq<int>>)
    requires CString(s)
  {
    s.Some? && StrLen(s.value) < MAX_UNITS
  }

  /** A length word and the units with their terminator, in two allocations; or the null
      marker alone. */
  function PutUnits(o: Out, units: Option<seq<u16>>): Out
    requires units.Some? ==> 0 < |units.value| <= MAX_UNITS
  {
    if units.None? then PutUint32(o, NULL_STRING)
    else Put(PutUint32(o, |units.value| - 1), UnitBytes(units.value))
  }

  /** What bio_put_string16 stores: the memory up to and including the terminator. */
  function StoredUnits(s: Option<seq<u16>>): (units: Option<seq<u16>>)
    requires CString(s)
    ensures units.Some? ==> 0 < |units.value| <= MAX_UNITS
  {
    if Storable(s) then Some(s.value[..StrLen(s.value) + 1]) else None
  }

  /** What bio_put_string16_x stores: the characters widened one by one, then a terminator. */
  function StoredUnitsX(s: Option<seq<byte>>): (units: Option<seq<u16>>)
    requires CString(s)
    ensures units.Some? ==> 0 < |units.value| <= MAX_UNITS
  {
    if Storable(s) then Some(Widen(s.value[..StrLen(s.value)]) + [0]) else None
  }

  function PutString16(o: Out, s: Option<seq<u16>>): Out
    requires CString(s)
  {
    PutUnits(o, StoredUnits(s))
  }

  function PutString16X(o: Out, s: Option<seq<byte>>): Out
    requires CString(s)
  {
    PutUnits(o, StoredUnitsX(s))
  }

  /** The two string encoders agree: same bytes, same padding, same counters, same flags,
      on success, on a failure of the body alone and on a failure of the length too. */
  lemma EncodersAgree(o: Out, s: Option<seq<byte>>)
    requires CString(s)
    ensures s.None? ==> PutString16X(o, s) == PutString16(o, None)
    ensures s.Some? ==> CString(Some(Widen(s.value))) && PutString16X(o, s) == PutString16(o, Some(Widen(s.value)))
  {
    if s.Some? {
      var len := StrLen(s.value);
      var w := Widen(s.value);
      assert w[len] == 0;
      StrLenUnique(w, len);
      if len < MAX_UNITS {
        assert w[..len + 1] == Widen(s.value[..len]) + [0];
      }
    }
  }

  // ---------------------------------------------------------------------------------------
  // Sequences of puts
  // ---------------------------------------------------------------------------------------

  datatype PutOp =
    | PutU32(n: u32)
    | PutStr(s: Option<seq<u16>>)
    | PutStrX(x: Option<seq<byte>>)
    | PutBinder(ptr: u64)
    | PutHandle(handle: u32)

  predicate ValidOp(op: PutOp) {
    match op
    case PutStr(s) => CString(s)
    case PutStrX(x) => CString(x)
    case _ => true
  }

  predicate ValidOps(ops: seq<PutOp>) {
    forall op | op in ops :: ValidOp(op)
  }

  function Apply(o: Out, op: PutOp): Out
    requires ValidOp(op)
  {
    match op
    case PutU32(n) => PutUint32(o, n)
    case PutStr(s) => PutString16(o, s)
    case PutStrX(x) => PutString16X(o, x)
    case PutBinder(p) => PutObj(o, p)
    case PutHandle(h) => PutRef(o, h)
  }

  function PutAll(o: Out, ops: seq<PutOp>): Out
    requires ValidOps(ops)
    decreases |ops|
  {
    if ops == [] then o else PutAll(Apply(o, ops[0]), ops[1..])
  }

  /** The space a put asks for, from its argument alone. */
  function Need(op: PutOp): nat
    requires ValidOp(op)
  {
    match op
    case PutU32(_) => 4
    case PutStr(s) => if Storable(s) then 4 + Align4(2 * (StrLen(s.value) + 1)) else 4
    case PutStrX(x) => if Storable(x) then 4 + Align4(2 * (StrLen(x.value) + 1)) else 4
    case PutBinder(_) => OBJ_SIZE
    case PutHandle(_) => OBJ_SIZE
  }

  /** Whether the put asks for an entry of the offset table. */
  predicate Listed(op: PutOp) {
    op.PutBinder? || (op.PutHandle? && op.handle != 0)
  }

  function ListedWire(op: PutOp): Wire
    requires Listed(op)
  {
    if op.PutBinder? then Binder(op.ptr) else Handle(op.handle)
  }

  predicate Fits(o: Out, op: PutOp)
    requires ValidOp(op)
  {
    Need(op) <= |o.room| && (Listed(op) ==> o.slots > 0)
  }

  /** Nothing already written changes: q comes from p by appending. */
  ghost predicate Extends(q: Out, p: Out) {
    && p.bytes <= q.bytes
    && p.offsets <= q.offsets
    && |q.bytes| + |q.room| == |p.bytes| + |p.room|
    && |q.offsets| + q.slots == |p.offsets| + p.slots
    && (|p.bytes| % 4 == 0 ==> |q.bytes| % 4 == 0)
    && (p.flags.overflow ==> q.flags.overflow)
    && q.flags.shared == p.flags.shared && q.flags.ioerror == p.flags.ioerror
  }

  /** p comes from o by asking for n bytes, granted exactly when they are left. */
  ghost predicate Consumes(o: Out, n: nat, p: Out) {
    && Extends(p, o)
    && p.offsets == o.offsets
    && p.flags.overflow == (o.flags.overflow || n > |o.room|)
    && (n <= |o.room| ==> |p.bytes| == |o.bytes| + n)
  }

  lemma PutEffect(o: Out, content: seq<byte>)
    requires |content| <= TWO32
    ensures Consumes(o, Align4(|content|), Put(o, content))
    ensures Align4(|content|) <= |o.room| ==> o.bytes + content <= Put(o, content).bytes
  {
    Align4Exact(|content|);
    hide Align4, Consumes;
    var n := Align4(|content|);
    if n <= |o.room| {
      Granted(o, content, n);
    } else {
      Denied(o, n);
    }
  }

  lemma Denied(o: Out, n: nat)
    requires n > |o.room|
    ensures Consumes(o, n, Overflowed(o))
  {
  }

  lemma Granted(o: Out, content: seq<byte>, n: nat)
    requires |content| <= n <= |o.room| && n % 4 == 0
    ensures var p := o.(bytes := o.bytes + content + o.room[|content|..n], room := o.room[n..]);
            Consumes(o, n, p) && o.bytes + content <= p.bytes
  {
    var pad := o.room[|content|..n];
    Appending(o.bytes, content, pad);
    assert |content| + |pad| == n;
  }

  lemma Appending<T>(a: seq<T>, b: seq<T>, c: seq<T>)
    ensures a <= a + b + c && a + b <= a + b + c
  {
  }

  lemma ConsumesTwice(o: Out, m: nat, q: Out, n: nat, p: Out)
    requires Consumes(o, m, q) && Consumes(q, n, p)
    ensures Consumes(o, m + n, p)
  {
  }

  /** One put: the overflow flag rises exactly when the put does not fit, a fitting put
      consumes exactly its need, and only a fitting object is listed, at the old cursor. */
  ghost predicate Effect(o: Out, op: PutOp, p: Out)
    requires ValidOp(op)
  {
    && Extends(p, o)
    && p.flags.overflow == (o.flags.overflow || !Fits(o, op))
    && (Fits(o, op) ==> |p.bytes| == |o.bytes| + Need(op))
    && p.offsets == (if Fits(o, op) && Listed(op) then o.offsets + [|o.bytes|] else o.offsets)
  }

  lemma ApplyEffect(o: Out, op: PutOp)
    requires ValidOp(op)
    ensures Effect(o, op, Apply(o, op))
  {
    hide Put, PutUint32, PutUnits, PutObject, Extends, Align4;
    match op
    case PutU32(n) => PutU32Effect(o, n);
    case PutStr(s) => PutUnitsEffect(o, StoredUnits(s));
    case PutStrX(x) => PutUnitsEffect(o, StoredUnitsX(x));
    case PutBinder(p) => PutObjectEffect(o, op);
    case PutHandle(h) =>
      if h != 0 {
        PutObjectEffect(o, op);
      } else {
        PutZeroEffect(o);
      }
  }

  lemma PutU32Effect(o: Out, n: u32)
    ensures Effect(o, PutU32(n), PutUint32(o, n))
  {
    PutEffect(o, Le32(n));
  }

  lemma PutZeroEffect(o: Out)
    ensures Effect(o, PutHandle(0), PutRef(o, 0))
  {
    if OBJ_SIZE <= |o.room| {
      PutEffect(o, ObjectBytes(Handle(0), o.room[12..16]));
    }
  }

  lemma PutObjectEffect(o: Out, op: PutOp)
    requires Listed(op)
    ensures Effect(o, op, PutObject(o, ListedWire(op)))
  {
    var p := PutObject(o, ListedWire(op));
    if OBJ_SIZE <= |o.room| {
      assert |p.bytes| == |o.bytes| + OBJ_SIZE;
    }
  }

  /** Both string encoders. */
  lemma PutUnitsEffect(o: Out, units: Option<seq<u16>>)
    requires units.Some? ==> 0 < |units.value| <= MAX_UNITS
    ensures Consumes(o, if units.Some? then 4 + Align4(2 * |units.value|) else 4, PutUnits(o, units))
  {
    if units.None? {
      PutEffect(o, Le32(NULL_STRING));
    } else {
      var q := PutUint32(o, |units.value| - 1);
      PutEffect(o, Le32(|units.value| - 1));
      PutEffect(q, UnitBytes(units.value));
      ConsumesTwice(o, 4, q, Align4(2 * |units.value|), PutUnits(o, units));
    }
  }

  /** A put that does not fit, in full: a word, an object without the space, or a string without
      even the space for its length only raises the flag; a string without the space for its body
      leaves its length word behind; and an object for which the table has no entry left takes its
      24 bytes as they were and is not listed. */
  lemma FailedPut(o: Out, op: PutOp)
    requires ValidOp(op) && !Fits(o, op)
    ensures var p, raised := Apply(o, op), o.flags.(overflow := true);
            if Listed(op) && |o.room| >= 24 then
              p == o.(bytes := o.bytes + o.room[..24], room := o.room[24..], flags := raised)
            else if (op.PutStr? || op.PutStrX?) && |o.room| >= 4 then
              var len := StrLen(if op.PutStr? then op.s.value else op.x.value);
              p == o.(bytes := o.bytes + Le32(len), room := o.room[4..], flags := raised)
            else p == o.(flags := raised)
  {
    hide Le32, UnitBytes;
    match op
    case PutStr(s) => FailedString(o, StoredUnits(s));
    case PutStrX(x) => FailedString(o, StoredUnitsX(x));
    case _ =>
  }

  lemma FailedString(o: Out, units: Option<seq<u16>>)
    requires units.Some? ==> 0 < |units.value| <= MAX_UNITS
    requires |o.room| < if units.Some? then 4 + Align4(2 * |units.value|) else 4
    ensures PutUnits(o, units)
         == if |o.room| < 4 then o.(flags := o.flags.(overflow := true))
            else o.(bytes := o.bytes + Le32(|units.value| - 1), room := o.room[4..],
                    flags := o.flags.(overflow := true))
  {
    hide Le32, UnitBytes;
    Align4Exact(4);
    if units.Some? {
      Align4Exact(2 * |units.value|);
      if |o.room| >= 4 { assert o.room[4..4] == []; }
    }
  }

  /** The puts that are never read back: a null string leaves a word of ones, and a zero handle an
      object of handle type that is not listed. */
  lemma UnlistedPut(o: Out, s: Option<seq<u16>>)
    requires CString(s) && (s.Some? ==> StrLen(s.value) >= 0x2000_0000)
    ensures |o.room| >= 4 ==>
              PutString16(o, s) == o.(bytes := o.bytes + [255, 255, 255, 255], room := o.room[4..])
    ensures |o.room| >= 24 ==>
              PutRef(o, 0) == o.(bytes := o.bytes + ObjectBytes(Handle(0), o.room[12..16]), room := o.room[24..])
  {
    assert Le32(NULL_STRING) == [255, 255, 255, 255];
    Align4Exact(4);
    Align4Exact(24);
    if |o.room| >= 4 { assert o.room[4..4] == []; }
    if |o.room| >= 24 { assert o.room[24..24] == []; }
  }

  lemma ExtendsTransitive(r: Out, q: Out, p: Out)
    requires Extends(r, q) && Extends(q, p)
    ensures Extends(r, p)
  {
  }

  /** Writer invariant over every sequence of puts: the space is conserved, the written part
      and the table only grow, and new table entries point at or after the old cursor. */
  lemma {:induction false} PutAllExtends(o: Out, ops: seq<PutOp>)
    requires ValidOps(ops)
    ensures var f := PutAll(o, ops);
            Extends(f, o) && forall k :: |o.offsets| <= k < |f.offsets| ==> f.offsets[k] >= |o.bytes|
    decreases |ops|
  {
    if ops != [] {
      var p := Apply(o, ops[0]);
      ApplyEffect(o, ops[0]);
      PutAllExtends(p, ops[1..]);
      ExtendsTransitive(PutAll(o, ops), p, o);
      var f := PutAll(o, ops);
      assert p.offsets == f.offsets[..|p.offsets|];
    }
  }

  /** Recorded offsets are strictly increasing, 4-aligned, and each listed 24-byte object lies
      in the written region, clear of every other listed object. */
  ghost predicate Spaced(offsets: seq<nat>, limit: nat) {
    && (forall k :: 0 <= k < |offsets| ==> offsets[k] + OBJ_SIZE <= limit && offsets[k] % 4 == 0)
    && (forall j, k :: 0 <= j < k < |offsets| ==> offsets[j] + OBJ_SIZE <= offsets[k])
  }

  ghost predicate WellPut(o: Out) {
    |o.bytes| % 4 == 0 && Spaced(o.offsets, |o.bytes|)
  }

  lemma {:induction false} PutAllWellPut(o: Out, ops: seq<PutOp>)
    requires ValidOps(ops) && WellPut(o)
    ensures WellPut(PutAll(o, ops))
    decreases |ops|
  {
    if ops != [] {
      ApplyEffect(o, ops[0]);
      assert WellPut(Apply(o, ops[0]));
      PutAllWellPut(Apply(o, ops[0]), ops[1..]);
    }
  }

  function TotalNeed(ops: seq<PutOp>): nat
    requires ValidOps(ops)
  {
    if ops == [] then 0 else Need(ops[0]) + TotalNeed(ops[1..])
  }

  /** The objects a sequence of puts lists, in order. */
  function Wires(ops: seq<PutOp>): seq<Wire> {
    if ops == [] then []
    else if Listed(ops[0]) then [ListedWire(ops[0])] + Wires(ops[1..])
    else Wires(ops[1..])
  }

  /** Closed form of the sticky flag: a sequence of puts overflows exactly when its needs sum
      to more than the space or its objects outnumber the table, whatever fits later on. */
  lemma {:induction false} OverflowExactly(o: Out, ops: seq<PutOp>)
    requires ValidOps(ops) && !o.flags.overflow
    ensures PutAll(o, ops).flags.overflow <==> TotalNeed(ops) > |o.room| || |Wires(ops)| > o.slots
    ensures !PutAll(o, ops).flags.overflow ==> |PutAll(o, ops).bytes| == |o.bytes| + TotalNeed(ops)
    decreases |ops|
  {
    if ops != [] {
      var p := Apply(o, ops[0]);
      ApplyEffect(o, ops[0]);
      if Fits(o, ops[0]) {
        OverflowExactly(p, ops[1..]);
      } else {
        PutAllExtends(p, ops[1..]);
      }
    }
  }

  /** A buffer of any size with a table of any length: a sequence of puts overflows exactly when it
      needs more than the buffer has left beside 8 bytes for each entry, or lists more objects than
      the table has entries. */
  lemma BufferHolds(buffer: seq<byte>, maxoffs: nat, ops: seq<PutOp>)
    requires ValidOps(ops) && 8 * maxoffs <= |buffer|
    ensures PutAll(Fresh(buffer, maxoffs), ops).flags.overflow
            <==> TotalNeed(ops) > |buffer| - 8 * maxoffs || |Wires(ops)| > maxoffs
  {
    OverflowExactly(Fresh(buffer, maxoffs), ops);
  }

  lemma {:induction false} PutAllSplit(o: Out, ops: seq<PutOp>, k: nat)
    requires ValidOps(ops) && k <= |ops|
    ensures ValidOps(ops[..k]) && ValidOps(ops[k..])
    ensures PutAll(o, ops) == PutAll(PutAll(o, ops[..k]), ops[k..])
    decreases k
  {
    if k == 0 {
      assert ops[0..] == ops;
    } else {
      PutAllSplit(Apply(o, ops[0]), ops[1..], k - 1);
      assert ops[..k][1..] == ops[1..][..k - 1];
      assert ops[1..][k - 1..] == ops[k..];
    }
  }

  lemma PutAllNext(o: Out, ops: seq<PutOp>, op: PutOp)
    requires ValidOps(ops) && ValidOp(op)
    ensures ValidOps(ops + [op]) && PutAll(o, ops + [op]) == Apply(PutAll(o, ops), op)
  {
    var all := ops + [op];
    assert ValidOps(all);
    PutAllSplit(o, all, |ops|);
    assert all[..|ops|] == ops && all[|ops|..] == [op];
    assert [op][1..] == [];
    assert PutAll(PutAll(o, ops), [op]) == PutAll(Apply(PutAll(o, ops), op), [op][1..]);
  }

  lemma {:induction false} FindFailure(o: Out, ops: seq<PutOp>) returns (k: nat)
    requires ValidOps(ops) && !o.flags.overflow && PutAll(o, ops).flags.overflow
    ensures k < |ops| && ValidOps(ops[..k]) && !Fits(PutAll(o, ops[..k]), ops[k])
    decreases |ops|
  {
    ApplyEffect(o, ops[0]);
    if Fits(o, ops[0]) {
      k := FindFailure(Apply(o, ops[0]), ops[1..]);
      assert ops[..k + 1][1..] == ops[1..][..k];
      k := k + 1;
    } else {
      k := 0;
      assert ops[..0] == [];
    }
  }

  /** The same, put by put: the flag is up at the end exactly when some put did not fit in the
      state it met, even if later, smaller puts succeeded. */
  lemma OverflowIffSomeFailed(o: Out, ops: seq<PutOp>)
    requires ValidOps(ops) && !o.flags.overflow
    ensures PutAll(o, ops).flags.overflow <==>
            exists k :: 0 <= k < |ops| && ValidOps(ops[..k]) && !Fits(PutAll(o, ops[..k]), ops[k])
  {
    if PutAll(o, ops).flags.overflow {
      var k := FindFailure(o, ops);
    }
    forall k | 0 <= k < |ops| && ValidOps(ops[..k]) && !Fits(PutAll(o, ops[..k]), ops[k])
      ensures PutAll(o, ops).flags.overflow
    {
      PutAllSplit(o, ops, k);
      ApplyEffect(PutAll(o, ops[..k]), ops[k]);
      PutAllExtends(Apply(PutAll(o, ops[..k]), ops[k]), ops[k..][1..]);
    }
  }
}
