/** The reading half of binder_io, on values, and its safety on arbitrary received bytes. */
module Reader {
  import opened Words
  import opened Writer

  /** An incoming binder_io: the address of the data (data0), the cursor as a distance from it,
      the bytes still available, the whole offset table, and the flags. */
  datatype In = In(base: u64, pos: nat, ahead: seq<byte>, table: seq<nat>, flags: Flags)

  /** bio_init_from_txn, on the contents of the mapped area: the data and the offset table lie
      at the addresses the transaction names. */
  function FromBuffer(mapped: seq<byte>, buffer: u64, dataSize: nat, offsets: nat, offsetsSize: nat): In
    requires buffer + dataSize <= |mapped| && offsets + offsetsSize <= |mapped|
  {
    In(buffer, 0, mapped[buffer..buffer + dataSize], Table(mapped[offsets..offsets + offsetsSize / 8 * 8]), SHARED)
  }

  function Failed(i: In): In {
    i.(ahead := [], flags := i.flags.(overflow := true))
  }

  /** bio_get: the bytes handed out, or a failure that empties the reader. */
  function Get(i: In, size: nat): (In, Option<seq<byte>>) {
    var n := Align4(size);
    if |i.ahead| < n then (Failed(i), None)
    else (i.(pos := i.pos + n, ahead := i.ahead[n..]), Some(i.ahead[..n]))
  }

  function GetUint32(i: In): (In, u32) {
    var (j, b) := Get(i, 4);
    (j, if b.Some? then Get32(b.value, 0) else 0)
  }

  /** bio_get_string16: the length word, and the units with the terminator's place. */
  function GetString16(i: In): (r: (In, u32, Option<seq<u16>>))
    ensures r.2.Some? ==> |r.2.value| == r.1 + 1
  {
    var (j, len) := GetUint32(i);
    Align4Exact((len + 1) * 2);
    var (k, b) := Get(j, (len + 1) * 2);
    (k, len, if b.Some? then Some(Units(b.value[..(len + 1) * 2])) else None)
  }

  /** _bio_get_obj: the cursor must be listed in the offset table. */
  function GetObject(i: In): (r: (In, Option<seq<byte>>))
    ensures r.1.Some? ==> |r.1.value| == OBJ_SIZE
  {
    if i.pos in i.table then Get(i, OBJ_SIZE) else (Failed(i), None)
  }

  function GetRef(i: In): (In, u32) {
    var (j, b) := GetObject(i);
    (j, if b.Some? && Get32(b.value, 0) == BINDER_TYPE_HANDLE then Get32(b.value, 8) else 0)
  }

  datatype GetOp = GetU32 | GetStr | GetHandle

  datatype Value = VU32(n: u32) | VStr(len: u32, units: Option<seq<u16>>) | VRef(handle: u32)

  function Fetch(i: In, g: GetOp): (In, Value) {
    match g
    case GetU32 => var (j, n) := GetUint32(i); (j, VU32(n))
    case GetStr => var (j, len, s) := GetString16(i); (j, VStr(len, s))
    case GetHandle => var (j, h) := GetRef(i); (j, VRef(h))
  }

  function FetchAll(i: In, gs: seq<GetOp>): (In, seq<Value>)
    decreases |gs|
  {
    if gs == [] then (i, [])
    else
      var (j, v) := Fetch(i, gs[0]);
      var (k, vs) := FetchAll(j, gs[1..]);
      (k, [v] + vs)
  }

  predicate Null(v: Value) {
    match v
    case VU32(n) => n == 0
    case VStr(_, s) => s.None?
    case VRef(h) => h == 0
  }

  /** j is i after some reading: the base and the table are the same, the cursor has not moved
      back, and what is left is the same bytes or nothing. */
  ghost predicate Behind(j: In, i: In) {
    && j.base == i.base && j.table == i.table
    && i.pos <= j.pos && j.pos + |j.ahead| <= i.pos + |i.ahead|
    && (j.ahead == [] || j.ahead == i.ahead[j.pos - i.pos..])
    && (j.flags == i.flags || j == Failed(j))
    && (!j.flags.overflow ==> j.pos + |j.ahead| == i.pos + |i.ahead|)
  }

  lemma BehindTransitive(k: In, j: In, i: In)
    requires Behind(k, j) && Behind(j, i)
    ensures Behind(k, i)
  {
  }

  lemma GetEffect(i: In, size: nat)
    requires size <= 0x100_0000_0000
    ensures var (j, b) := Get(i, size);
            && Behind(j, i)
            && (b.Some? <==> Align4(size) <= |i.ahead|)
            && (b.None? ==> j == i.(ahead := [], flags := i.flags.(overflow := true)))
            && (b.Some? ==> size <= |b.value| && b.value <= i.ahead && j.flags == i.flags && j.pos == i.pos + |b.value|)
            && (i.ahead == [] && size > 0 ==> b.None?)
  {
    Align4Exact(size);
  }

  /** One get of any kind on any bytes. An exhausted reader yields null and stays put: every
      size asked for is nonzero after doubling and rounding in 64 bits. */
  lemma FetchEffect(i: In, g: GetOp)
    ensures var (j, v) := Fetch(i, g);
            && Behind(j, i)
            && (j.flags.overflow && !i.flags.overflow ==> j.ahead == [])
            && (i.ahead == [] ==> j == Failed(i) && Null(v))
  {
    match g
    case GetU32 => GetEffect(i, 4);
    case GetStr => StringEffect(i);
    case GetHandle => GetEffect(i, OBJ_SIZE);
  }

  /** bio_get_string16 in its two steps. */
  lemma StringSteps(i: In, j: In, len: u32, k: In, b: Option<seq<byte>>)
    requires GetUint32(i) == (j, len) && Get(j, (len + 1) * 2) == (k, b)
    ensures b.Some? ==> (len + 1) * 2 <= |b.value|
    ensures GetString16(i) == (k, len, if b.Some? then Some(Units(b.value[..(len + 1) * 2])) else None)
  {
    hide Units, GetUint32, Align4;
    Align4Exact((len + 1) * 2);
  }

  lemma StringEffect(i: In)
    ensures var (j, len, s) := GetString16(i);
            && Behind(j, i)
            && (j.flags.overflow && !i.flags.overflow ==> j.ahead == [])
            && (i.ahead == [] ==> j == Failed(i) && s.None?)
  {
    hide Units, Get, GetString16;
    var (j, len) := GetUint32(i);
    var (k, b) := Get(j, (len + 1) * 2);
    StringSteps(i, j, len, k, b);
    GetEffect(i, 4);
    GetEffect(j, (len + 1) * 2);
    BehindTransitive(k, j, i);
  }

  /** Reader safety over every sequence of gets on any received bytes: the cursor never passes
      the end of the data, and the base and the table never change. */
  lemma {:induction false} ReaderSafe(i: In, gs: seq<GetOp>)
    ensures Behind(FetchAll(i, gs).0, i) && |FetchAll(i, gs).1| == |gs|
    ensures FetchAll(i, gs).0.flags.overflow && !i.flags.overflow ==> FetchAll(i, gs).0.ahead == []
    decreases |gs|
  {
    if gs != [] {
      var j := Fetch(i, gs[0]).0;
      FetchEffect(i, gs[0]);
      ReaderSafe(j, gs[1..]);
      BehindTransitive(FetchAll(i, gs).0, j, i);
      if j.flags.overflow && !i.flags.overflow {
        StaysFailed(j, gs[1..]);
      }
    }
  }

  /** After the first failure (or once exhausted) every later get yields zero or null, and
      neither the cursor nor the rest of the reader moves. */
  lemma {:induction false} StaysFailed(i: In, gs: seq<GetOp>)
    requires i.ahead == []
    ensures FetchAll(i, gs).0 == (if gs == [] then i else Failed(i))
    ensures forall v | v in FetchAll(i, gs).1 :: Null(v)
    decreases |gs|
  {
    if gs != [] {
      FetchEffect(i, gs[0]);
      StaysFailed(Failed(i), gs[1..]);
    }
  }

  /** A reference read as a nonzero handle comes from an object the table lists. */
  lemma NonzeroRefIsListed(i: In)
    requires GetRef(i).1 != 0
    ensures i.pos in i.table && OBJ_SIZE <= |i.ahead|
    ensures Get32(i.ahead, 0) == BINDER_TYPE_HANDLE && Get32(i.ahead, 8) == GetRef(i).1
  {
    assert i.ahead[..OBJ_SIZE][0..4] == i.ahead[0..4];
  }
}
