/** What the driver delivers of a message, and the round trip through it: reading back with the
    matching gets returns what was put. */
module Delivery {
  import opened Words
  import opened Writer
  import opened Reader

  /** The driver's rewriting of one object: type, payload and cookie are replaced, the flags
      word stays. */
  function RewriteObject(prior: seq<byte>, w: Wire): (b: seq<byte>)
    requires |prior| == OBJ_SIZE
    ensures |b| == OBJ_SIZE
  {
    match w
    case Binder(p) => Le32(BINDER_TYPE_BINDER) + prior[4..8] + Le64(p) + Le64(0)
    case Handle(h) => Le32(BINDER_TYPE_HANDLE) + prior[4..8] + Le64(h) + Le64(0)
  }

  /** The driver's rewriting of a message: the k-th listed object becomes ws[k]. */
  function Rewrite(b: seq<byte>, offsets: seq<nat>, ws: seq<Wire>): (r: seq<byte>)
    requires Spaced(offsets, |b|) && |ws| == |offsets|
    ensures |r| == |b|
    decreases |offsets|
  {
    if offsets == [] then b
    else
      var n := |offsets| - 1;
      var at := offsets[n];
      var r := Rewrite(b, offsets[..n], ws[..n]);
      Splice(r, at, RewriteObject(b[at..at + OBJ_SIZE], ws[n]))
  }

  /** Bytes outside the listed objects are delivered unchanged. */
  lemma {:induction false} RewriteKeeps(b: seq<byte>, offsets: seq<nat>, ws: seq<Wire>, lo: nat, hi: nat)
    requires Spaced(offsets, |b|) && |ws| == |offsets| && lo <= hi <= |b|
    requires forall k :: 0 <= k < |offsets| ==> offsets[k] + OBJ_SIZE <= lo || hi <= offsets[k]
    ensures Rewrite(b, offsets, ws)[lo..hi] == b[lo..hi]
    decreases |offsets|
  {
    if offsets != [] {
      var n := |offsets| - 1;
      RewriteKeeps(b, offsets[..n], ws[..n], lo, hi);
      var r := Rewrite(b, offsets[..n], ws[..n]);
      var at := offsets[n];
      var s := RewriteObject(b[at..at + OBJ_SIZE], ws[n]);
      SpliceSlices(r, at, s, lo, hi);
    }
  }

  /** Each listed object is delivered as its own replacement. */
  lemma {:induction false} RewriteAt(b: seq<byte>, offsets: seq<nat>, ws: seq<Wire>, k: nat)
    requires Spaced(offsets, |b|) && |ws| == |offsets| && k < |offsets|
    ensures Rewrite(b, offsets, ws)[offsets[k]..offsets[k] + OBJ_SIZE]
         == RewriteObject(b[offsets[k]..offsets[k] + OBJ_SIZE], ws[k])
    decreases |offsets|
  {
    hide RewriteObject, Splice;
    var n := |offsets| - 1;
    var r := Rewrite(b, offsets[..n], ws[..n]);
    var at, to := offsets[n], offsets[k];
    var s := RewriteObject(b[at..at + OBJ_SIZE], ws[n]);
    assert Rewrite(b, offsets, ws) == Splice(r, at, s);
    SpliceSlices(r, at, s, to, to + OBJ_SIZE);
    if k < n {
      assert to + OBJ_SIZE <= at;
      RewriteAt(b, offsets[..n], ws[..n], k);
      assert offsets[..n][k] == to && ws[..n][k] == ws[k];
    }
  }

  /** The message the receiver sees: a binder_io over the delivered buffer. */
  function Delivered(base: u64, bytes: seq<byte>, offsets: seq<nat>, ws: seq<Wire>): In
    requires Spaced(offsets, |bytes|) && |ws| == |offsets|
  {
    In(base, 0, Rewrite(bytes, offsets, ws), offsets, SHARED)
  }

  /** The puts that can be read back: no null-string marker and no zero handle. */
  predicate Readable(op: PutOp) {
    match op
    case PutStr(s) => CString(s) && Storable(s)
    case PutStrX(x) => CString(x) && Storable(x)
    case PutHandle(h) => h != 0
    case _ => true
  }

  predicate AllReadable(ops: seq<PutOp>) {
    forall op | op in ops :: ValidOp(op) && Readable(op)
  }

  function GetFor(op: PutOp): GetOp {
    match op
    case PutU32(_) => GetU32
    case PutStr(_) => GetStr
    case PutStrX(_) => GetStr
    case PutBinder(_) => GetHandle
    case PutHandle(_) => GetHandle
  }

  function GetsFor(ops: seq<PutOp>): seq<GetOp> {
    if ops == [] then [] else [GetFor(ops[0])] + GetsFor(ops[1..])
  }

  /** What the receiver's bio_get_ref makes of a delivered object: a handle, or zero when the
      object is the receiver's own and so arrives as a local object. */
  function HandleOf(w: Wire): u32 {
    if w.Handle? then w.handle else 0
  }

  /** The units a string put stores. */
  function UnitsOf(op: PutOp): (u: seq<u16>)
    requires (op.PutStr? || op.PutStrX?) && Readable(op)
    ensures 0 < |u| <= MAX_UNITS
  {
    if op.PutStr? then StoredUnits(op.s).value else StoredUnitsX(op.x).value
  }

  /** The value one put carries, given the handle its object arrives as. */
  function ValuePut(op: PutOp, handle: u32): Value
    requires Readable(op)
  {
    match op
    case PutU32(n) => VU32(n)
    case PutStr(_) => VStr(|UnitsOf(op)| - 1, Some(UnitsOf(op)))
    case PutStrX(_) => VStr(|UnitsOf(op)| - 1, Some(UnitsOf(op)))
    case PutBinder(_) => VRef(handle)
    case PutHandle(_) => VRef(handle)
  }

  /** The values put, with each listed object as the driver delivered it. */
  function ValuesPut(ops: seq<PutOp>, ws: seq<Wire>): seq<Value>
    requires AllReadable(ops) && |ws| == |Wires(ops)|
    decreases |ops|
  {
    if ops == [] then []
    else if Listed(ops[0]) then [ValuePut(ops[0], HandleOf(ws[0]))] + ValuesPut(ops[1..], ws[1..])
    else [ValuePut(ops[0], 0)] + ValuesPut(ops[1..], ws)
  }

  lemma ReadContent(i: In, content: seq<byte>, rest: seq<byte>, pad: seq<byte>)
    requires |content| <= TWO32 && |content| + |pad| == Align4(|content|)
    requires i.ahead == content + pad + rest
    ensures var n := Align4(|content|);
            Get(i, |content|) == (i.(pos := i.pos + n, ahead := rest), Some(content + pad))
  {
    assert (content + pad + rest)[..|content| + |pad|] == content + pad;
    assert (content + pad + rest)[|content| + |pad|..] == rest;
  }

  lemma ReadU32(i: In, n: u32, rest: seq<byte>)
    requires i.ahead == Le32(n) + rest
    ensures GetUint32(i) == (i.(pos := i.pos + 4, ahead := rest), n)
  {
    assert i.ahead == Le32(n) + [] + rest;
    ReadContent(i, Le32(n), rest, []);
    var b := Get(i, 4).1.value;
    assert b[0..4] == Le32(n);
    ReadLe32(b, 0, n);
  }

  lemma ReadUnits(i: In, units: seq<u16>, pad: seq<byte>, rest: seq<byte>)
    requires 0 < |units| <= MAX_UNITS && 2 * |units| + |pad| == Align4(2 * |units|)
    requires i.ahead == Le32(|units| - 1) + (UnitBytes(units) + pad + rest)
    ensures GetString16(i) == (i.(pos := i.pos + 4 + Align4(2 * |units|), ahead := rest), |units| - 1, Some(units))
  {
    hide Le32, UnitBytes, Units, Align4, GetString16;
    UnitsOfBytes(units);
    assert |UnitBytes(units)| == 2 * |units|;
    ReadString(i, |units| - 1, UnitBytes(units), pad, rest);
  }

  lemma ReadString(i: In, len: u32, content: seq<byte>, pad: seq<byte>, rest: seq<byte>)
    requires |content| == 2 * (len + 1) <= 2 * MAX_UNITS && |content| + |pad| == Align4(|content|)
    requires i.ahead == Le32(len) + (content + pad + rest)
    ensures GetString16(i) == (i.(pos := i.pos + 4 + Align4(|content|), ahead := rest), len, Some(Units(content)))
  {
    hide Le32, Align4, Get, GetUint32, GetString16, Units;
    ReadU32(i, len, content + pad + rest);
    var j := GetUint32(i).0;
    ReadContent(j, content, rest, pad);
    StringSteps(i, j, len, Get(j, |content|).0, Some(content + pad));
    assert (content + pad)[..|content|] == content;
  }

  lemma LowHalf(h: u32)
    ensures Le64(h)[..4] == Le32(h)
  {
  }

  lemma ReadObject(i: In, prior: seq<byte>, w: Wire, rest: seq<byte>)
    requires |prior| == OBJ_SIZE && i.ahead == RewriteObject(prior, w) + rest && i.pos in i.table
    ensures GetRef(i) == (i.(pos := i.pos + OBJ_SIZE, ahead := rest), HandleOf(w))
  {
    hide Get32, Le32, Le64, Get, Align4;
    var s := RewriteObject(prior, w);
    assert i.ahead == s + [] + rest;
    Align4Exact(OBJ_SIZE);
    ReadContent(i, s, rest, []);
    assert s + [] == s;
    match w
    case Binder(p) =>
      assert s[0..4] == Le32(BINDER_TYPE_BINDER);
      ReadLe32(s, 0, BINDER_TYPE_BINDER);
    case Handle(h) =>
      assert s[0..4] == Le32(BINDER_TYPE_HANDLE);
      ReadLe32(s, 0, BINDER_TYPE_HANDLE);
      assert s[8..12] == Le64(h)[..4];
      LowHalf(h);
      ReadLe32(s, 8, h);
  }

  /** The bytes an unlisted readable put appends, up to the padding left in the buffer. */
  function Content(op: PutOp, pad: seq<byte>): seq<byte>
    requires Readable(op) && !Listed(op)
  {
    if op.PutU32? then Le32(op.n)
    else Le32(|UnitsOf(op)| - 1) + (UnitBytes(UnitsOf(op)) + pad)
  }

  predicate Padded(op: PutOp, pad: seq<byte>)
    requires Readable(op) && !Listed(op)
  {
    op.PutU32? || 2 * |UnitsOf(op)| + |pad| == Align4(2 * |UnitsOf(op)|)
  }

  lemma Appended(o: Out, op: PutOp) returns (pad: seq<byte>)
    requires ValidOp(op) && Readable(op) && !Listed(op) && Fits(o, op)
    ensures Padded(op, pad) && Apply(o, op).bytes == o.bytes + Content(op, pad)
  {
    if op.PutU32? {
      pad := [];
    } else {
      pad := AppendedUnits(o, UnitsOf(op));
    }
  }

  lemma AppendedUnits(o: Out, u: seq<u16>) returns (pad: seq<byte>)
    requires 0 < |u| <= MAX_UNITS && 4 + Align4(2 * |u|) <= |o.room|
    ensures 2 * |u| + |pad| == Align4(2 * |u|)
    ensures PutUnits(o, Some(u)).bytes == o.bytes + (Le32(|u| - 1) + (UnitBytes(u) + pad))
  {
    Align4Exact(2 * |u|);
    var q := PutUint32(o, |u| - 1);
    assert q.bytes == o.bytes + Le32(|u| - 1);
    pad := q.room[2 * |u|..Align4(2 * |u|)];
    assert PutUnits(o, Some(u)).bytes == q.bytes + UnitBytes(u) + pad;
  }

  /** The reader standing where the writer stood before its remaining puts. */
  function At(base: u64, delivered: seq<byte>, pos: nat, table: seq<nat>, flags: Flags): In
    requires pos <= |delivered|
  {
    In(base, pos, delivered[pos..], table, flags)
  }

  lemma ReadBackPlain(i: In, op: PutOp, pad: seq<byte>, rest: seq<byte>)
    requires ValidOp(op) && Readable(op) && !Listed(op) && Padded(op, pad)
    requires i.ahead == Content(op, pad) + rest
    ensures Fetch(i, GetFor(op)) == (i.(pos := i.pos + |Content(op, pad)|, ahead := rest), ValuePut(op, 0))
  {
    hide Le32, UnitBytes, Align4, GetString16, GetUint32;
    if op.PutU32? {
      ReadU32(i, op.n, rest);
    } else {
      var u := UnitsOf(op);
      assert i.ahead == Le32(|u| - 1) + (UnitBytes(u) + pad + rest);
      ReadUnits(i, u, pad, rest);
      assert |Content(op, pad)| == 4 + Align4(2 * |u|);
      assert GetFor(op) == GetStr;
    }
  }

  /** Where a put leaves its bytes in the finished message, and that later puts keep them. */
  lemma Placed(o: Out, ops: seq<PutOp>)
    requires ValidOps(ops) && ops != [] && WellPut(o) && !PutAll(o, ops).flags.overflow
    ensures var p, f := Apply(o, ops[0]), PutAll(o, ops);
            && WellPut(p) && WellPut(f) && Fits(o, ops[0]) && !p.flags.overflow
            && Extends(p, o) && Extends(f, p) && |o.bytes| <= |p.bytes| <= |f.bytes|
            && f.bytes[|o.bytes|..|p.bytes|] == p.bytes[|o.bytes|..]
            && (Listed(ops[0]) ==> |f.offsets| > |o.offsets| && f.offsets[|o.offsets|] == |o.bytes|
                                   && p.offsets == o.offsets + [|o.bytes|])
            && (!Listed(ops[0]) ==> p.offsets == o.offsets)
            && (!Listed(ops[0]) ==>
                  forall k :: 0 <= k < |f.offsets| ==>
                    f.offsets[k] + OBJ_SIZE <= |o.bytes| || |p.bytes| <= f.offsets[k])
  {
    var p, f := Apply(o, ops[0]), PutAll(o, ops);
    ApplyEffect(o, ops[0]);
    PutAllExtends(p, ops[1..]);
    PutAllWellPut(o, ops);
    PutAllWellPut(o, [ops[0]]);
    hide Apply, PutAll, WellPut;
    assert f.bytes[..|p.bytes|] == p.bytes;
    SliceOfSlice(f.bytes, 0, |p.bytes|, |o.bytes|, |p.bytes|);
    forall k | 0 <= k < |p.offsets| ensures f.offsets[k] == p.offsets[k] {
    }
  }

  /** A listed object, met at its offset, is read as the handle it was delivered as. */
  lemma ReadBackListed(b: seq<byte>, offsets: seq<nat>, ws: seq<Wire>, k: nat, base: u64, flags: Flags)
    requires Spaced(offsets, |b|) && |ws| == |offsets| && k < |offsets|
    ensures var r := Rewrite(b, offsets, ws);
            GetRef(At(base, r, offsets[k], offsets, flags))
            == (At(base, r, offsets[k] + OBJ_SIZE, offsets, flags), HandleOf(ws[k]))
  {
    hide Rewrite, RewriteObject, GetRef;
    var r := Rewrite(b, offsets, ws);
    var lo, hi := offsets[k], offsets[k] + OBJ_SIZE;
    RewriteAt(b, offsets, ws, k);
    assert r[lo..] == r[lo..hi] + r[hi..];
    ReadObject(At(base, r, lo, offsets, flags), b[lo..hi], ws[k], r[hi..]);
  }

  /** Everything else is read as it was written. */
  lemma ReadBackUnlisted(b: seq<byte>, offsets: seq<nat>, ws: seq<Wire>, lo: nat, hi: nat,
                         op: PutOp, pad: seq<byte>, base: u64, flags: Flags)
    requires Spaced(offsets, |b|) && |ws| == |offsets| && lo <= hi <= |b|
    requires forall k :: 0 <= k < |offsets| ==> offsets[k] + OBJ_SIZE <= lo || hi <= offsets[k]
    requires ValidOp(op) && Readable(op) && !Listed(op) && Padded(op, pad) && b[lo..hi] == Content(op, pad)
    ensures var r := Rewrite(b, offsets, ws);
            Fetch(At(base, r, lo, offsets, flags), GetFor(op))
            == (At(base, r, hi, offsets, flags), ValuePut(op, 0))
  {
    hide Rewrite, Fetch, Content, ValuePut, Padded, Spaced;
    var r := Rewrite(b, offsets, ws);
    RewriteKeeps(b, offsets, ws, lo, hi);
    assert r[lo..] == r[lo..hi] + r[hi..];
    assert |Content(op, pad)| == hi - lo;
    var i := At(base, r, lo, offsets, flags);
    ReadBackPlain(i, op, pad, r[hi..]);
    assert i.(pos := i.pos + |Content(op, pad)|, ahead := r[hi..]) == At(base, r, hi, offsets, flags);
  }

  lemma ListedFetch(i: In, op: PutOp, h: u32)
    requires Listed(op) && Readable(op)
    ensures Fetch(i, GetFor(op)) == (GetRef(i).0, VRef(GetRef(i).1)) && ValuePut(op, h) == VRef(h)
  {
    hide GetRef;
  }

  /** One step of the round trip: the get for the first put returns its value and stops exactly
      where the put stopped. */
  lemma ReadBackOne(o: Out, ops: seq<PutOp>, ws: seq<Wire>, base: u64, flags: Flags)
    requires ValidOps(ops) && ops != [] && WellPut(o) && Readable(ops[0])
    requires !PutAll(o, ops).flags.overflow && WellPut(PutAll(o, ops))
    requires |ws| == |PutAll(o, ops).offsets|
    ensures |o.bytes| <= |Apply(o, ops[0]).bytes| <= |PutAll(o, ops).bytes|
    ensures Listed(ops[0]) ==> |o.offsets| < |ws|
    ensures var f := PutAll(o, ops);
            var r := Rewrite(f.bytes, f.offsets, ws);
            Fetch(At(base, r, |o.bytes|, f.offsets, flags), GetFor(ops[0]))
            == (At(base, r, |Apply(o, ops[0]).bytes|, f.offsets, flags),
                ValuePut(ops[0], if Listed(ops[0]) then HandleOf(ws[|o.offsets|]) else 0))
  {
    hide Rewrite, Apply, PutAll, Content, Extends, Spaced, ValuePut, Fetch;
    var op, p, f := ops[0], Apply(o, ops[0]), PutAll(o, ops);
    Placed(o, ops);
    if Listed(op) {
      assert |p.bytes| == |o.bytes| + OBJ_SIZE by { ApplyEffect(o, op); }
      ListedFetch(At(base, Rewrite(f.bytes, f.offsets, ws), |o.bytes|, f.offsets, flags), op,
                  HandleOf(ws[|o.offsets|]));
      ReadBackListed(f.bytes, f.offsets, ws, |o.offsets|, base, flags);
    } else {
      var pad := Appended(o, op);
      assert p.bytes[|o.bytes|..] == Content(op, pad);
      ReadBackUnlisted(f.bytes, f.offsets, ws, |o.bytes|, |p.bytes|, op, pad, base, flags);
    }
  }

  /** Marshalling round trip, from any point of the message: whatever the buffer held before,
      the matching gets return the values put, every object search succeeds, and the reader
      ends with nothing left and no flag raised. */
  lemma {:induction false} ReadBackAll(o: Out, ops: seq<PutOp>, ws: seq<Wire>, base: u64, flags: Flags)
    requires ValidOps(ops) && WellPut(o) && AllReadable(ops)
    requires !PutAll(o, ops).flags.overflow && WellPut(PutAll(o, ops))
    requires |PutAll(o, ops).offsets| == |o.offsets| + |Wires(ops)| == |ws|
    ensures var f := PutAll(o, ops);
            && |o.bytes| <= |f.bytes|
            && FetchAll(At(base, Rewrite(f.bytes, f.offsets, ws), |o.bytes|, f.offsets, flags), GetsFor(ops))
            == (In(base, |f.bytes|, [], f.offsets, flags), ValuesPut(ops, ws[|o.offsets|..]))
    decreases |ops|
  {
    var f := PutAll(o, ops);
    var r := Rewrite(f.bytes, f.offsets, ws);
    if ops == [] {
      assert r[|o.bytes|..] == [];
      assert ws[|o.offsets|..] == [];
    } else {
      var p := Apply(o, ops[0]);
      Placed(o, ops);
      ReadBackOne(o, ops, ws, base, flags);
      ReadBackAll(p, ops[1..], ws, base, flags);
      assert GetsFor(ops)[1..] == GetsFor(ops[1..]);
      if Listed(ops[0]) {
        assert ws[|o.offsets|..][1..] == ws[|p.offsets|..];
      }
    }
  }

  /** The whole message, from a clean binder_io to the receiver's. */
  lemma RoundTrip(o: Out, ops: seq<PutOp>, ws: seq<Wire>, base: u64)
    requires o.bytes == [] && o.offsets == [] && AllReadable(ops)
    requires !PutAll(o, ops).flags.overflow && |ws| == |Wires(ops)|
    ensures var f := PutAll(o, ops);
            && WellPut(f) && |f.offsets| == |ws|
            && FetchAll(Delivered(base, f.bytes, f.offsets, ws), GetsFor(ops))
            == (In(base, |f.bytes|, [], f.offsets, Flags(true, false, false)), ValuesPut(ops, ws))
  {
    PutAllWellPut(o, ops);
    var f := PutAll(o, ops);
    WiresFound(o, ops);
    ReadBackAll(o, ops, ws, base, SHARED);
    assert Rewrite(f.bytes, f.offsets, ws)[0..] == Rewrite(f.bytes, f.offsets, ws);
    assert ws[0..] == ws;
  }

  /** The object the sender stored at a listed offset, as the driver reads it. */
  function WireAt(b: seq<byte>, at: nat): Option<Wire>
    requires at + OBJ_SIZE <= |b|
  {
    if Get32(b, at) == BINDER_TYPE_BINDER then Some(Binder(Get64(b, at + 8)))
    else if Get32(b, at) == BINDER_TYPE_HANDLE then Some(Handle(Get32(b, at + 8)))
    else None
  }

  /** The driver finds in the message exactly the objects put, in order. */
  lemma {:induction false} WiresFound(o: Out, ops: seq<PutOp>)
    requires ValidOps(ops) && WellPut(o) && !PutAll(o, ops).flags.overflow
    ensures var f := PutAll(o, ops);
            && WellPut(f)
            && |f.offsets| == |o.offsets| + |Wires(ops)|
            && forall k :: 0 <= k < |Wires(ops)| ==>
                 WireAt(f.bytes, f.offsets[|o.offsets| + k]) == Some(Wires(ops)[k])
    decreases |ops|
  {
    hide Apply, WireAt, Extends, Fits;
    PutAllWellPut(o, ops);
    if ops != [] {
      Placed(o, ops);
      var p, f := Apply(o, ops[0]), PutAll(o, ops);
      assert f == PutAll(p, ops[1..]);
      WiresFound(p, ops[1..]);
      if Listed(ops[0]) {
        FirstWire(o, ops);
        assert Wires(ops) == [ListedWire(ops[0])] + Wires(ops[1..]);
        hide PutAll, Wires, WellPut;
        forall k | 0 < k < |Wires(ops)|
          ensures WireAt(f.bytes, f.offsets[|o.offsets| + k]) == Some(Wires(ops)[k])
        {
          assert WireAt(f.bytes, f.offsets[|p.offsets| + (k - 1)]) == Some(Wires(ops[1..])[k - 1]);
        }
      }
    }
  }

  lemma FirstWire(o: Out, ops: seq<PutOp>)
    requires ValidOps(ops) && ops != [] && WellPut(o) && !PutAll(o, ops).flags.overflow && Listed(ops[0])
    ensures WellPut(PutAll(o, ops)) && |PutAll(o, ops).offsets| > |o.offsets|
    ensures var f := PutAll(o, ops); WireAt(f.bytes, f.offsets[|o.offsets|]) == Some(ListedWire(ops[0]))
  {
    Placed(o, ops);
    var p, f, at := Apply(o, ops[0]), PutAll(o, ops), |o.bytes|;
    var s := ObjectBytes(ListedWire(ops[0]), o.room[12..16]);
    assert p.bytes == o.bytes + s;
    assert p.bytes[at..] == s;
    WireOfObject(f.bytes, at, ListedWire(ops[0]), o.room[12..16]);
  }

  lemma WireOfObject(b: seq<byte>, at: nat, w: Wire, hole: seq<byte>)
    requires at + OBJ_SIZE <= |b| && |hole| == 4 && b[at..at + OBJ_SIZE] == ObjectBytes(w, hole)
    ensures WireAt(b, at) == Some(w)
  {
    var s := ObjectBytes(w, hole);
    SliceOfSlice(b, at, OBJ_SIZE, 0, 4);
    SliceOfSlice(b, at, OBJ_SIZE, 8, 12);
    SliceOfSlice(b, at, OBJ_SIZE, 8, 16);
    match w
    case Binder(p) =>
      assert s[0..4] == Le32(BINDER_TYPE_BINDER) && s[8..16] == Le64(p);
      ReadLe32(b, at, BINDER_TYPE_BINDER);
      ReadLe64(b, at + 8, p);
    case Handle(h) =>
      assert s[0..4] == Le32(BINDER_TYPE_HANDLE) && s[8..12] == Le32(h);
      ReadLe32(b, at, BINDER_TYPE_HANDLE);
      ReadLe32(b, at + 8, h);
  }
}
