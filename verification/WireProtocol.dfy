/** What each side of the registry protocol decodes of what the other side encoded. */
module WireProtocol {
  import opened Words
  import opened Writer
  import opened Reader
  import opened Delivery
  import opened Commands
  import opened Parser
  import opened Registry
  import opened RegistryLaws
  import opened Manager
  import opened Clients
  import opened Layout

  lemma FetchOne(i: In, g: GetOp, gs: seq<GetOp>)
    ensures FetchAll(i, [g] + gs) == var (j, v) := Fetch(i, g); var (k, vs) := FetchAll(j, gs); (k, [v] + vs)
  {
    var all := [g] + gs;
    assert all[0] == g && all[1..] == gs;
  }

  lemma GetsOne(op: PutOp, ops: seq<PutOp>)
    ensures GetsFor([op] + ops) == [GetFor(op)] + GetsFor(ops)
  {
    var all := [op] + ops;
    assert all[0] == op && all[1..] == ops;
  }

  lemma ValuesOne(op: PutOp, ops: seq<PutOp>, ws: seq<Wire>)
    requires Readable(op) && ValidOp(op) && AllReadable(ops) && |ws| == |Wires(ops)| + if Listed(op) then 1 else 0
    ensures AllReadable([op] + ops)
    ensures Wires([op] + ops) == if Listed(op) then [ListedWire(op)] + Wires(ops) else Wires(ops)
    ensures ValuesPut([op] + ops, ws)
         == if Listed(op) then [ValuePut(op, HandleOf(ws[0]))] + ValuesPut(ops, ws[1..])
            else [ValuePut(op, 0)] + ValuesPut(ops, ws)
  {
    var all := [op] + ops;
    assert all[0] == op && all[1..] == ops;
    assert AllReadable(all);
  }

  /** Reading a head value off a list of values read. */
  lemma ReadHeadValue(i: In, g: GetOp, gs: seq<GetOp>, k: In, v: Value, vs: seq<Value>)
    requires FetchAll(i, [g] + gs) == (k, [v] + vs)
    ensures Fetch(i, g).1 == v && FetchAll(Fetch(i, g).0, gs) == (k, vs)
  {
    hide FetchAll, Fetch;
    FetchOne(i, g, gs);
    var w, ws := Fetch(i, g).1, FetchAll(Fetch(i, g).0, gs).1;
    assert ([w] + ws)[0] == ([v] + vs)[0];
    assert ([w] + ws)[1..] == ws && ([v] + vs)[1..] == vs;
  }

  /** The puts of a request header for any interface. */
  function HeaderFor(x: u32, y: u32, id: seq<byte>): seq<PutOp> {
    [PutU32(x), PutU32(y), PutStrX(NameArg(id))]
  }

  lemma ManagerHeader()
    ensures HeaderFor(0, 0, MANAGER_ID) == HeaderOps() && PlainName(MANAGER_ID)
  {
  }

  lemma WidenInjective(a: seq<byte>, b: seq<byte>)
    requires Widen(a) == Widen(b)
    ensures a == b
  {
    forall k | 0 <= k < |a| ensures a[k] == b[k] {
      assert Widen(a)[k] == Widen(b)[k];
    }
  }

  /** The header check, on the values read: it passes for the manager's interface only. */
  lemma HeaderRead(i: In, x: u32, y: u32, id: seq<byte>, gs: seq<GetOp>, k: In, vs: seq<Value>)
    requires |id| < MAX_UNITS
    requires FetchAll(i, [GetU32] + ([GetU32] + ([GetStr] + gs)))
          == (k, [VU32(x)] + ([VU32(y)] + ([VStr(|id|, Some(Widen(id) + [0]))] + vs)))
    ensures (Header(i).1 <==> id == MANAGER_ID) && FetchAll(Header(i).0, gs) == (k, vs)
  {
    hide FetchAll, GetUint32, GetString16, Widen;
    var units := Widen(id) + [0];
    ReadHeadValue(i, GetU32, [GetU32] + ([GetStr] + gs), k, VU32(x), [VU32(y)] + ([VStr(|id|, Some(units))] + vs));
    var i1 := GetUint32(i).0;
    ReadHeadValue(i1, GetU32, [GetStr] + gs, k, VU32(y), [VStr(|id|, Some(units))] + vs);
    var i2 := GetUint32(i1).0;
    ReadHeadValue(i2, GetStr, gs, k, VStr(|id|, Some(units)), vs);
    assert units[..|id|] == Widen(id);
    if Header(i).1 { WidenInjective(id, MANAGER_ID); }
  }

  /** The puts of an add request after its header. */
  function AddArguments(name: seq<byte>, ptr: u64, isolated: u32, priority: u32): seq<PutOp> {
    [PutStrX(NameArg(name)), PutBinder(ptr), PutU32(isolated), PutU32(priority)]
  }

  lemma PublishShape(name: seq<byte>, ptr: u64)
    ensures PublishOps(NameArg(name), ptr) == HeaderOps() + AddArguments(name, ptr, 0, 0)
  {
  }

  /** A request that fits, delivered and read back. */
  lemma MessageDelivered(iodata: MessageBuffer, ops: seq<PutOp>, ws: seq<Wire>, base: u64)
    requires AllReadable(ops) && |ws| == |Wires(ops)| && ValidOps(ops) && !Request(iodata, ops).flags.overflow
    ensures var f := Request(iodata, ops);
            && WellPut(f) && |f.offsets| == |ws|
            && (forall k :: 0 <= k < |ws| ==> WireAt(f.bytes, f.offsets[k]) == Some(Wires(ops)[k]))
            && FetchAll(Delivered(base, f.bytes, f.offsets, ws), GetsFor(ops))
            == (In(base, |f.bytes|, [], f.offsets, SHARED), ValuesPut(ops, ws))
  {
    hide PutAll, Delivered, FetchAll, GetsFor, ValuesPut, Wires, WireAt;
    var o := Fresh(iodata, MESSAGE_SLOTS);
    RoundTrip(o, ops, ws, base);
    WiresFound(o, ops);
    var f := Request(iodata, ops);
    forall k | 0 <= k < |ws| ensures WireAt(f.bytes, f.offsets[k]) == Some(Wires(ops)[k]) {
      assert f.offsets[k] == f.offsets[|o.offsets| + k];
    }
  }

  /** The registration arguments, read off the values. */
  lemma AddRead(i: In, k: In, s: seq<u16>, h: u32, c: Caller, a: u32, p: u32)
    requires 0 < |s| <= TWO32
    requires FetchAll(i, [GetStr] + ([GetHandle] + ([GetU32] + ([GetU32] + []))))
          == (k, [VStr(|s| - 1, Some(s))] + ([VRef(h)] + ([VU32(a)] + ([VU32(p)] + []))))
    ensures AddRequest(c, i) == Some(AddArgs(s[..|s| - 1], h, c, a != 0, p))
  {
    hide FetchAll, GetString16, GetRef, GetUint32;
    ReadHeadValue(i, GetStr, [GetHandle] + ([GetU32] + ([GetU32] + [])), k, VStr(|s| - 1, Some(s)),
                  [VRef(h)] + ([VU32(a)] + ([VU32(p)] + [])));
    var i1 := GetString16(i).0;
    ReadHeadValue(i1, GetHandle, [GetU32] + ([GetU32] + []), k, VRef(h), [VU32(a)] + ([VU32(p)] + []));
    var i2 := GetRef(i1).0;
    ReadHeadValue(i2, GetU32, [GetU32] + [], k, VU32(a), [VU32(p)] + []);
    var i3 := GetUint32(i2).0;
    ReadHeadValue(i3, GetU32, [], k, VU32(p), []);
  }

  lemma PutAllConcat(o: Out, a: seq<PutOp>, b: seq<PutOp>)
    requires ValidOps(a) && ValidOps(b)
    ensures ValidOps(a + b) && PutAll(o, a + b) == PutAll(PutAll(o, a), b)
  {
    assert ValidOps(a + b);
    PutAllSplit(o, a + b, |a|);
    assert (a + b)[..|a|] == a && (a + b)[|a|..] == b;
  }

  /** A name that cannot be stored is put as a word: the null marker. */
  lemma MarkerIsWord(o: Out, a: seq<PutOp>, name: Option<seq<byte>>, b: seq<PutOp>)
    requires CString(name) && !Storable(name) && ValidOps(a) && ValidOps(b)
    ensures ValidOps(a + [PutStrX(name)] + b) && ValidOps(a + [PutU32(NULL_STRING)] + b)
    ensures PutAll(o, a + [PutStrX(name)] + b) == PutAll(o, a + [PutU32(NULL_STRING)] + b)
  {
    hide Storable, CString;
    var x, y := PutStrX(name), PutU32(NULL_STRING);
    var q := PutAll(o, a);
    assert Apply(q, x) == Apply(q, y) by { MarkerPut(q, name); }
    hide PutAll, Apply;
    PutAllConcat(o, a + [x], b);
    PutAllConcat(o, a + [y], b);
    PutAllNext(o, a, x);
    PutAllNext(o, a, y);
  }

  lemma MarkerPut(o: Out, name: Option<seq<byte>>)
    requires CString(name) && !Storable(name)
    ensures Apply(o, PutStrX(name)) == Apply(o, PutU32(NULL_STRING))
  {
  }

  /** A reader that meets the null marker asks for 2^33 bytes and gets none. */
  lemma MarkerRead(i: In)
    requires GetUint32(i).1 == NULL_STRING && |i.ahead| < 0x2_0000_0000
    ensures GetString16(i).2 == None
  {
    hide Units, GetString16;
    var (j, len) := GetUint32(i);
    var (k, b) := Get(j, (len + 1) * 2);
    GetEffect(i, 4);
    StringSteps(i, j, len, k, b);
    Align4Exact((len + 1) * 2);
  }

  lemma HeaderBehind(msg: In)
    ensures Behind(Header(msg).0, msg)
  {
    var m1 := GetUint32(msg).0;
    var m2 := GetUint32(m1).0;
    var m3 := GetString16(m2).0;
    FetchEffect(msg, GetU32);
    FetchEffect(m1, GetU32);
    FetchEffect(m2, GetStr);
    hide GetUint32, GetString16, Behind;
    BehindTransitive(m2, m1, msg);
    BehindTransitive(m3, m2, msg);
  }

  lemma IdPut(id: seq<byte>)
    requires PlainName(id) && |id| < MAX_UNITS
    ensures CString(NameArg(id))
    ensures var put := PutStrX(NameArg(id));
            ValidOp(put) && Readable(put) && !Listed(put) && ValuePut(put, 0) == VStr(|id|, Some(Widen(id) + [0]))
  {
    NameString(id);
  }

  /** The header's puts, read back. */
  lemma HeaderPuts(x: u32, y: u32, id: seq<byte>, ops: seq<PutOp>, ws: seq<Wire>)
    requires AllReadable(ops) && |ws| == |Wires(ops)| && PlainName(id) && |id| < MAX_UNITS
    ensures AllReadable(HeaderFor(x, y, id) + ops) && Wires(HeaderFor(x, y, id) + ops) == Wires(ops)
    ensures GetsFor(HeaderFor(x, y, id) + ops) == [GetU32] + ([GetU32] + ([GetStr] + GetsFor(ops)))
    ensures ValuesPut(HeaderFor(x, y, id) + ops, ws)
         == [VU32(x)] + ([VU32(y)] + ([VStr(|id|, Some(Widen(id) + [0]))] + ValuesPut(ops, ws)))
  {
    var u, v, name := PutU32(x), PutU32(y), PutStrX(NameArg(id));
    IdPut(id);
    assert Readable(u) && ValidOp(u) && !Listed(u) && ValuePut(u, 0) == VU32(x);
    assert Readable(v) && ValidOp(v) && !Listed(v) && ValuePut(v, 0) == VU32(y);
    hide GetsFor, Wires, ValuesPut, ValuePut, AllReadable, Readable, ValidOp, Listed, ListedWire, Widen;
    hide StrLen, CString, NameArg;
    var p1 := [name] + ops;
    var p2 := [v] + p1;
    ValuesOne(name, ops, ws); GetsOne(name, ops);
    ValuesOne(v, p1, ws); GetsOne(v, p1);
    ValuesOne(u, p2, ws); GetsOne(u, p2);
    assert [u] + p2 == HeaderFor(x, y, id) + ops;
  }

  /** The puts of an add request after the header, read back. */
  lemma AddPuts(name: seq<byte>, ptr: u64, a: u32, p: u32, w: Wire)
    requires PlainName(name) && |name| < MAX_UNITS
    ensures CString(NameArg(name))
    ensures var ops := AddArguments(name, ptr, a, p);
            && AllReadable(ops) && Wires(ops) == [Binder(ptr)]
            && GetsFor(ops) == [GetStr] + ([GetHandle] + ([GetU32] + ([GetU32] + [])))
            && ValuesPut(ops, [w])
            == [VStr(|name|, Some(Widen(name) + [0]))] + ([VRef(HandleOf(w))] + ([VU32(a)] + ([VU32(p)] + [])))
  {
    hide GetsFor, Wires, Widen;
    IdPut(name);
    Empties();
    var u, v, n, b := PutU32(a), PutU32(p), PutStrX(NameArg(name)), PutBinder(ptr);
    assert Readable(u) && ValidOp(u) && !Listed(u) && ValuePut(u, 0) == VU32(a);
    assert Readable(v) && ValidOp(v) && !Listed(v) && ValuePut(v, 0) == VU32(p);
    assert Readable(b) && ValidOp(b) && Listed(b) && ListedWire(b) == Binder(ptr)
           && ValuePut(b, HandleOf(w)) == VRef(HandleOf(w));
    hide ValuesPut, ValuePut, AllReadable, Readable, ValidOp, Listed, ListedWire, Storable, CString, NameArg;
    var e: seq<PutOp> := [];
    var p1 := [v] + e;
    var p2 := [u] + p1;
    var p3 := [b] + p2;
    ValuesOne(v, e, []); GetsOne(v, e);
    ValuesOne(u, p1, []); GetsOne(u, p1);
    ValuesOne(b, p2, [w]); GetsOne(b, p2);
    assert [w][1..] == [];
    ValuesOne(n, p3, [w]); GetsOne(n, p3);
    assert [n] + p3 == AddArguments(name, ptr, a, p);
  }

  lemma Empties()
    ensures Wires([]) == [] && AllReadable([]) && GetsFor([]) == [] && ValuesPut([], []) == []
  {
  }

  /** The header check on any received bytes: it passes exactly when the third word is the
      length of the manager's interface name, the name follows it unit for unit, and its
      terminator's place and padding are there too. */
  lemma HeaderExact(msg: In)
    ensures Header(msg).1 <==>
            && |msg.ahead| >= 68 && Get32(msg.ahead, 8) == 26
            && forall k :: 0 <= k < 26 ==> Units(msg.ahead[12..64])[k] == "android.os.IServiceManager"[k] as int
  {
    ManagerNames();
    if |msg.ahead| >= 68 {
      assert Units(msg.ahead[12..64]) == Widen(MANAGER_ID)
        <==> forall k :: 0 <= k < 26 ==> Units(msg.ahead[12..64])[k] == Widen(MANAGER_ID)[k];
    }
    hide Units, Widen;
    var m1 := GetUint32(msg).0;
    var m2 := GetUint32(m1).0;
    SkipWord(msg);
    SkipWord(m1);
    if |msg.ahead| >= 12 {
      assert m2.ahead == msg.ahead[8..];
      InterfaceRead(m2);
      if |msg.ahead| >= 68 {
        assert msg.ahead[8..][4..56] == msg.ahead[12..64];
      }
    } else {
      assert |m2.ahead| < 4;
      InterfaceRead(m2);
    }
  }

  lemma SkipWord(i: In)
    ensures GetUint32(i).0.ahead == if |i.ahead| >= 4 then i.ahead[4..] else []
  {
  }

  lemma InterfaceRead(i: In)
    ensures var (_, len, s) := GetString16(i);
            (s.Some? && len == |MANAGER_ID| && s.value[..|MANAGER_ID|] == Widen(MANAGER_ID)) <==>
            (|i.ahead| >= 60 && Get32(i.ahead, 0) == |MANAGER_ID| && Units(i.ahead[4..56]) == Widen(MANAGER_ID))
  {
    hide Units, Widen, GetString16;
    var (j, len) := GetUint32(i);
    var (k, b) := Get(j, (len + 1) * 2);
    StringSteps(i, j, len, k, b);
    SkipWord(i);
    if |i.ahead| < 4 {
      Align4Exact((len + 1) * 2);
    } else {
      SameFirstWord(i);
      if len == |MANAGER_ID| && b.Some? {
        assert b.value == i.ahead[4..60];
        assert b.value[..54] == i.ahead[4..58];
        UnitsPrefix(i.ahead[4..58], 26);
        assert i.ahead[4..58][..52] == i.ahead[4..56];
      }
    }
  }

  lemma SameFirstWord(i: In)
    requires |i.ahead| >= 4
    ensures GetUint32(i).1 == Get32(i.ahead, 0)
  {
  }

  lemma UnitsPrefix(b: seq<byte>, n: nat)
    requires 2 * n <= |b|
    ensures Units(b)[..n] == Units(b[..2 * n])
  {
    forall k | 0 <= k < n ensures Units(b)[k] == Units(b[..2 * n])[k] {
    }
  }

  /** The manager accepts a header a client puts exactly when it names the manager's interface,
      whatever the two words before the name and whatever follows it; a request with any other
      interface is an error with no effect, unless it is a ping. */
  lemma InterfaceChecked(iodata: MessageBuffer, x: u32, y: u32, id: seq<byte>, tail: seq<PutOp>, ws: seq<Wire>,
                         base: u64, pol: Policy, reg: seq<Record>, t: TxnSec, reply: Out)
    requires PlainName(id) && AllReadable(tail) && |ws| == |Wires(tail)|
    requires ValidOps(HeaderFor(x, y, id) + tail) && !Request(iodata, HeaderFor(x, y, id) + tail).flags.overflow
    ensures var f := Request(iodata, HeaderFor(x, y, id) + tail);
            && WellPut(f) && |f.offsets| == |ws|
            && var msg := Delivered(base, f.bytes, f.offsets, ws);
            && (Header(msg).1 <==> id == MANAGER_ID)
            && (id != MANAGER_ID && t.txn.target == 0 && t.txn.code != PING_TRANSACTION ==>
                  Manage(pol, reg, t, msg, reply) == Handled(reg, [], reply, -1))
  {
    var ops := HeaderFor(x, y, id) + tail;
    var f := Request(iodata, ops);
    if |id| < MAX_UNITS {
      HeaderPuts(x, y, id, tail, ws);
      hide Request, HeaderFor, Header, AllReadable, ValuesPut, GetsFor, Wires, Widen, FetchAll, Delivered;
      hide PutAll, WireAt;
      MessageDelivered(iodata, ops, ws, base);
      var msg := Delivered(base, f.bytes, f.offsets, ws);
      HeaderRead(msg, x, y, id, GetsFor(tail), In(base, |f.bytes|, [], f.offsets, SHARED), ValuesPut(tail, ws));
    } else {
      hide Request, Header, Delivered;
      MarkedHeader(iodata, x, y, id, tail, ws, base);
    }
  }

  lemma MarkedHeader(iodata: MessageBuffer, x: u32, y: u32, id: seq<byte>, tail: seq<PutOp>, ws: seq<Wire>, base: u64)
    requires PlainName(id) && |id| >= MAX_UNITS && AllReadable(tail) && |ws| == |Wires(tail)|
    requires ValidOps(HeaderFor(x, y, id) + tail) && !Request(iodata, HeaderFor(x, y, id) + tail).flags.overflow
    ensures var f := Request(iodata, HeaderFor(x, y, id) + tail);
            WellPut(f) && |f.offsets| == |ws| && !Header(Delivered(base, f.bytes, f.offsets, ws)).1
  {
    NameString(id);
    var o := Fresh(iodata, MESSAGE_SLOTS);
    var words := [PutU32(x), PutU32(y)];
    var plain := words + [PutU32(NULL_STRING)] + tail;
    assert ValidOps(tail);
    MarkerIsWord(o, words, NameArg(id), tail);
    assert words + [PutStrX(NameArg(id))] == HeaderFor(x, y, id);
    hide Delivered, FetchAll, PutAll, GetsFor, ValuesPut, Wires, HeaderFor, NameArg, Header;
    WordPuts(x, y, NULL_STRING, tail, ws);
    MessageDelivered(iodata, plain, ws, base);
    var f := Request(iodata, plain);
    var msg := Delivered(base, f.bytes, f.offsets, ws);
    RequestSize(iodata, plain);
    MarkedHeaderRead(msg, x, y, GetsFor(tail), In(base, |f.bytes|, [], f.offsets, SHARED), ValuesPut(tail, ws));
  }

  lemma RequestSize(iodata: MessageBuffer, ops: seq<PutOp>)
    requires ValidOps(ops)
    ensures |Request(iodata, ops).bytes| <= 480
  {
    PutAllExtends(Fresh(iodata, MESSAGE_SLOTS), ops);
  }

  /** Three words and more, read back. */
  lemma WordPuts(x: u32, y: u32, z: u32, ops: seq<PutOp>, ws: seq<Wire>)
    requires AllReadable(ops) && |ws| == |Wires(ops)|
    ensures var all := [PutU32(x), PutU32(y)] + [PutU32(z)] + ops;
            && AllReadable(all) && Wires(all) == Wires(ops)
            && GetsFor(all) == [GetU32] + ([GetU32] + ([GetU32] + GetsFor(ops)))
            && ValuesPut(all, ws) == [VU32(x)] + ([VU32(y)] + ([VU32(z)] + ValuesPut(ops, ws)))
  {
    var u, v, w := PutU32(x), PutU32(y), PutU32(z);
    hide GetsFor, Wires, ValuesPut, AllReadable;
    var p1 := [w] + ops;
    var p2 := [v] + p1;
    ValuesOne(w, ops, ws); GetsOne(w, ops);
    ValuesOne(v, p1, ws); GetsOne(v, p1);
    ValuesOne(u, p2, ws); GetsOne(u, p2);
    assert [u] + p2 == [u, v] + [w] + ops;
  }

  lemma MarkedHeaderRead(i: In, x: u32, y: u32, gs: seq<GetOp>, k: In, vs: seq<Value>)
    requires |i.ahead| < 0x2_0000_0000
    requires FetchAll(i, [GetU32] + ([GetU32] + ([GetU32] + gs)))
             == (k, [VU32(x)] + ([VU32(y)] + ([VU32(NULL_STRING)] + vs)))
    ensures !Header(i).1
  {
    FetchEffect(i, GetU32);
    FetchEffect(GetUint32(i).0, GetU32);
    hide FetchAll, GetUint32, GetString16, Widen;
    ReadHeadValue(i, GetU32, [GetU32] + ([GetU32] + gs), k, VU32(x), [VU32(y)] + ([VU32(NULL_STRING)] + vs));
    var i1 := GetUint32(i).0;
    ReadHeadValue(i1, GetU32, [GetU32] + gs, k, VU32(y), [VU32(NULL_STRING)] + vs);
    var i2 := GetUint32(i1).0;
    ReadHeadValue(i2, GetU32, gs, k, VU32(NULL_STRING), vs);
    MarkerRead(i2);
  }

  /** A name that cannot be stored, a null pointer or 2^29 characters and more, in a request
      that fits: the header is accepted, and the name is missing. */
  lemma MarkerDecoded(iodata: MessageBuffer, name: Option<seq<byte>>, tail: seq<PutOp>, ws: seq<Wire>, base: u64)
    requires CString(name) && !Storable(name) && AllReadable(tail) && |ws| == |Wires(tail)|
    requires ValidOps(HeaderOps() + [PutStrX(name)] + tail)
    requires !Request(iodata, HeaderOps() + [PutStrX(name)] + tail).flags.overflow
    ensures var f := Request(iodata, HeaderOps() + [PutStrX(name)] + tail);
            && WellPut(f) && |f.offsets| == |ws|
            && (forall k :: 0 <= k < |ws| ==> WireAt(f.bytes, f.offsets[k]) == Some(Wires(tail)[k]))
            && var msg := Delivered(base, f.bytes, f.offsets, ws);
            && Header(msg).1 && GetString16(Header(msg).0).2 == None
  {
    hide Header, Delivered, WireAt, GetString16, Wires, AllReadable, HeaderOps, PutAll;
    assert ValidOps(HeaderOps()) by { IdString(); }
    assert ValidOps(tail) by { ReadableValid(tail); }
    MarkerIsWord(Fresh(iodata, MESSAGE_SLOTS), HeaderOps(), name, tail);
    WordDecoded(iodata, NULL_STRING, tail, ws, base);
    var f := Request(iodata, HeaderOps() + [PutStrX(name)] + tail);
    var msg := Delivered(base, f.bytes, f.offsets, ws);
    HeaderBehind(msg);
    RequestSize(iodata, HeaderOps() + [PutStrX(name)] + tail);
    DeliveredSize(base, f.bytes, f.offsets, ws);
    MarkerRead(Header(msg).0);
  }

  lemma ReadableValid(ops: seq<PutOp>)
    requires AllReadable(ops)
    ensures ValidOps(ops)
  {
  }

  /** A request with a word after its header, delivered and read up to that word. */
  lemma WordDecoded(iodata: MessageBuffer, z: u32, tail: seq<PutOp>, ws: seq<Wire>, base: u64)
    requires AllReadable(tail) && |ws| == |Wires(tail)|
    requires ValidOps(HeaderOps() + [PutU32(z)] + tail)
    requires !Request(iodata, HeaderOps() + [PutU32(z)] + tail).flags.overflow
    ensures var f := Request(iodata, HeaderOps() + [PutU32(z)] + tail);
            && WellPut(f) && |f.offsets| == |ws|
            && (forall k :: 0 <= k < |ws| ==> WireAt(f.bytes, f.offsets[k]) == Some(Wires(tail)[k]))
            && var msg := Delivered(base, f.bytes, f.offsets, ws);
            && Header(msg).1 && GetUint32(Header(msg).0).1 == z
  {
    ManagerHeader();
    hide Request, Delivered, FetchAll, GetsFor, ValuesPut, Wires, HeaderFor, HeaderOps, Header, GetUint32;
    hide Widen, WireAt, AllReadable, ValidOps;
    var rest := [PutU32(z)] + tail;
    ValuesOne(PutU32(z), tail, ws);
    GetsOne(PutU32(z), tail);
    HeaderPuts(0, 0, MANAGER_ID, rest, ws);
    var plain := HeaderOps() + [PutU32(z)] + tail;
    assert plain == HeaderOps() + rest;
    MessageDelivered(iodata, plain, ws, base);
    var f := Request(iodata, plain);
    var msg := Delivered(base, f.bytes, f.offsets, ws);
    var k := In(base, |f.bytes|, [], f.offsets, SHARED);
    HeaderRead(msg, 0, 0, MANAGER_ID, GetsFor(rest), k, ValuesPut(rest, ws));
    ReadHeadValue(Header(msg).0, GetU32, GetsFor(tail), k, VU32(z), ValuesPut(tail, ws));
  }

  lemma DeliveredSize(base: u64, bytes: seq<byte>, offsets: seq<nat>, ws: seq<Wire>)
    requires Spaced(offsets, |bytes|) && |ws| == |offsets|
    ensures |Delivered(base, bytes, offsets, ws).ahead| == |bytes|
  {
  }

  /** The manager reads an add request that fits exactly as it was meant: the name, unit for
      unit, the handle the driver gave the object (0 if the object is the manager's own), whether
      isolated callers may find it, and its priority. For every buffer contents. With a name too
      long to be stored it reads no request at all. */
  lemma AddDecoded(iodata: MessageBuffer, name: seq<byte>, ptr: u64, a: u32, p: u32, w: Wire, base: u64, c: Caller)
    requires PlainName(name)
    requires ValidOps(HeaderOps() + AddArguments(name, ptr, a, p))
    requires !Request(iodata, HeaderOps() + AddArguments(name, ptr, a, p)).flags.overflow
    ensures var f := Request(iodata, HeaderOps() + AddArguments(name, ptr, a, p));
            && WellPut(f) && |f.offsets| == 1 && WireAt(f.bytes, f.offsets[0]) == Some(Binder(ptr))
            && var msg := Delivered(base, f.bytes, f.offsets, [w]);
            && Header(msg).1
            && AddRequest(c, Header(msg).0)
            == if |name| < MAX_UNITS then Some(AddArgs(Widen(name), HandleOf(w), c, a != 0, p)) else None
  {
    if |name| < MAX_UNITS {
      StoredAddDecoded(iodata, name, ptr, a, p, w, base, c);
    } else {
      NameString(name);
      AfterName(ptr, a, p);
      var tail := [PutBinder(ptr), PutU32(a), PutU32(p)];
      assert HeaderOps() + AddArguments(name, ptr, a, p) == HeaderOps() + [PutStrX(NameArg(name))] + tail;
      hide Request, HeaderOps, AddArguments, Header, Delivered, WireAt, GetString16, NameArg, Wires, AllReadable;
      MarkerDecoded(iodata, NameArg(name), tail, [w], base);
    }
  }

  lemma AfterName(ptr: u64, a: u32, p: u32)
    ensures AllReadable([PutBinder(ptr), PutU32(a), PutU32(p)])
            && Wires([PutBinder(ptr), PutU32(a), PutU32(p)]) == [Binder(ptr)]
  {
    var e: seq<PutOp> := [];
    Empties();
    ValuesOne(PutU32(p), e, []);
    ValuesOne(PutU32(a), [PutU32(p)] + e, []);
    ValuesOne(PutBinder(ptr), [PutU32(a)] + ([PutU32(p)] + e), [Binder(ptr)]);
    assert [PutBinder(ptr)] + ([PutU32(a)] + ([PutU32(p)] + e)) == [PutBinder(ptr), PutU32(a), PutU32(p)];
  }

  lemma StoredAddDecoded(iodata: MessageBuffer, name: seq<byte>, ptr: u64, a: u32, p: u32, w: Wire, base: u64,
                         c: Caller)
    requires PlainName(name) && |name| < MAX_UNITS
    requires ValidOps(HeaderOps() + AddArguments(name, ptr, a, p))
    requires !Request(iodata, HeaderOps() + AddArguments(name, ptr, a, p)).flags.overflow
    ensures var f := Request(iodata, HeaderOps() + AddArguments(name, ptr, a, p));
            && WellPut(f) && |f.offsets| == 1 && WireAt(f.bytes, f.offsets[0]) == Some(Binder(ptr))
            && var msg := Delivered(base, f.bytes, f.offsets, [w]);
            && Header(msg).1
            && AddRequest(c, Header(msg).0) == Some(AddArgs(Widen(name), HandleOf(w), c, a != 0, p))
  {
    var tail := AddArguments(name, ptr, a, p);
    AddPuts(name, ptr, a, p, w);
    ManagerHeader();
    HeaderPuts(0, 0, MANAGER_ID, tail, [w]);
    hide Request, HeaderOps, HeaderFor, AddArguments, AddRequest, Header, AllReadable, ValuesPut, GetsFor;
    hide Wires, Widen;
    hide FetchAll, Delivered, PutAll, WireAt, CString, NameArg;
    var ops := HeaderOps() + tail;
    MessageDelivered(iodata, ops, [w], base);
    var f := Request(iodata, ops);
    var msg := Delivered(base, f.bytes, f.offsets, [w]);
    var k := In(base, |f.bytes|, [], f.offsets, SHARED);
    HeaderRead(msg, 0, 0, MANAGER_ID, GetsFor(tail), k, ValuesPut(tail, [w]));
    AddRead(Header(msg).0, k, Widen(name) + [0], HandleOf(w), c, a, p);
    assert (Widen(name) + [0])[..|name|] == Widen(name);
  }

  /** The registration a publisher sends: no isolated callers and priority 0. For every name
      whose message fits it is read as it was meant, or not at all when the name is too long to
      be stored. */
  lemma PublishDecoded(iodata: MessageBuffer, name: seq<byte>, ptr: u64, w: Wire, base: u64, c: Caller)
    requires PlainName(name) && PublishFits(name)
    ensures CString(NameArg(name)) && ValidOps(PublishOps(NameArg(name), ptr))
    ensures var f := Request(iodata, PublishOps(NameArg(name), ptr));
            && !f.flags.overflow && WellPut(f) && |f.offsets| == 1 && WireAt(f.bytes, f.offsets[0]) == Some(Binder(ptr))
            && var msg := Delivered(base, f.bytes, f.offsets, [w]);
            && Header(msg).1
            && AddRequest(c, Header(msg).0)
            == if |name| < MAX_UNITS then Some(AddArgs(Widen(name), HandleOf(w), c, false, 0)) else None
  {
    hide Request, HeaderOps, AddArguments, AddRequest, Header, Widen, Delivered, WireAt;
    NameString(name);
    RequestFits(iodata, NameArg(name), ptr);
    PublishShape(name, ptr);
    AddDecoded(iodata, name, ptr, 0, 0, w, base, c);
  }

  /** The manager reads a looked-up name exactly as it was meant, or none when it is too long to
      be stored. */
  lemma LookupDecoded(iodata: MessageBuffer, name: seq<byte>, base: u64)
    requires PlainName(name) && LookupFits(name)
    ensures CString(NameArg(name)) && ValidOps(LookupOps(NameArg(name)))
    ensures var f := Request(iodata, LookupOps(NameArg(name)));
            && !f.flags.overflow && WellPut(f) && f.offsets == []
            && var msg := Delivered(base, f.bytes, f.offsets, []);
            && Header(msg).1
            && (|name| < MAX_UNITS ==> GetString16(Header(msg).0).1 == |name|)
            && GetString16(Header(msg).0).2 == if |name| < MAX_UNITS then Some(Widen(name) + [0]) else None
  {
    NameString(name);
    RequestFits(iodata, NameArg(name), 0);
    if |name| < MAX_UNITS {
      StoredLookupDecoded(iodata, name, base);
    } else {
      NamelessLookupDecoded(iodata, NameArg(name), base);
    }
  }

  lemma NamelessLookupDecoded(iodata: MessageBuffer, name: Option<seq<byte>>, base: u64)
    requires CString(name) && !Storable(name)
    ensures ValidOps(LookupOps(name))
    ensures var f := Request(iodata, LookupOps(name));
            && !f.flags.overflow && WellPut(f) && f.offsets == []
            && var msg := Delivered(base, f.bytes, f.offsets, []);
            && Header(msg).1 && GetString16(Header(msg).0).2 == None
  {
    RequestFits(iodata, name, 0);
    Empties();
    assert HeaderOps() + [PutStrX(name)] + [] == LookupOps(name);
    hide Request, HeaderOps, LookupOps, Header, Delivered, WireAt, GetString16, Wires, AllReadable;
    MarkerDecoded(iodata, name, [], [], base);
  }

  lemma NamelessPublishDecoded(iodata: MessageBuffer, name: Option<seq<byte>>, ptr: u64, w: Wire, base: u64, c: Caller)
    requires CString(name) && !Storable(name)
    ensures ValidOps(PublishOps(name, ptr))
    ensures var f := Request(iodata, PublishOps(name, ptr));
            && !f.flags.overflow && WellPut(f) && |f.offsets| == 1 && WireAt(f.bytes, f.offsets[0]) == Some(Binder(ptr))
            && var msg := Delivered(base, f.bytes, f.offsets, [w]);
            && Header(msg).1 && AddRequest(c, Header(msg).0) == None
  {
    RequestFits(iodata, name, ptr);
    AfterName(ptr, 0, 0);
    var tail := [PutBinder(ptr), PutU32(0), PutU32(0)];
    assert HeaderOps() + [PutStrX(name)] + tail == PublishOps(name, ptr);
    hide Request, HeaderOps, PublishOps, Header, Delivered, WireAt, GetString16, Wires, AllReadable;
    MarkerDecoded(iodata, name, tail, [w], base);
  }

  lemma StoredLookupDecoded(iodata: MessageBuffer, name: seq<byte>, base: u64)
    requires PlainName(name) && |name| <= 203
    ensures CString(NameArg(name)) && ValidOps(LookupOps(NameArg(name)))
    ensures var f := Request(iodata, LookupOps(NameArg(name)));
            && !f.flags.overflow && WellPut(f) && f.offsets == []
            && var msg := Delivered(base, f.bytes, f.offsets, []);
            && Header(msg).1
            && GetString16(Header(msg).0).1 == |name| && GetString16(Header(msg).0).2 == Some(Widen(name) + [0])
  {
    NameString(name);
    var ops := LookupOps(NameArg(name));
    var tail := [PutStrX(NameArg(name))];
    RequestFits(iodata, NameArg(name), 0);
    RequestNeeds(NameArg(name), 0);
    NamePut(name);
    ManagerHeader();
    HeaderPuts(0, 0, MANAGER_ID, tail, []);
    assert ops == HeaderOps() + tail;
    hide Request, HeaderOps, HeaderFor, Header, AllReadable, ValuesPut, GetsFor, Wires, Widen, FetchAll;
    hide Delivered, PutAll, WireAt, CString, NameArg, GetString16;
    MessageDelivered(iodata, ops, [], base);
    var f := Request(iodata, ops);
    var msg := Delivered(base, f.bytes, f.offsets, []);
    var k := In(base, |f.bytes|, [], f.offsets, SHARED);
    HeaderRead(msg, 0, 0, MANAGER_ID, GetsFor(tail), k, ValuesPut(tail, []));
    ReadHeadValue(Header(msg).0, GetStr, [], k, VStr(|name|, Some(Widen(name) + [0])), []);
  }

  lemma NamePut(name: seq<byte>)
    requires PlainName(name) && |name| < MAX_UNITS
    ensures CString(NameArg(name))
    ensures var ops := [PutStrX(NameArg(name))];
            && AllReadable(ops) && Wires(ops) == [] && GetsFor(ops) == [GetStr] + []
            && ValuesPut(ops, []) == [VStr(|name|, Some(Widen(name) + [0]))] + []
  {
    hide GetsFor, Wires, Widen;
    NameString(name);
    Empties();
    var n := PutStrX(NameArg(name));
    assert ValuePut(n, 0) == VStr(|name|, Some(Widen(name) + [0]));
    hide ValuesPut, ValuePut;
    var e: seq<PutOp> := [];
    ValuesOne(n, e, []);
    GetsOne(n, e);
    assert [n] + e == [n];
  }

  // ---------------------------------------------------------------------------------------
  // Replies on the wire
  // ---------------------------------------------------------------------------------------

  /** One put into a clean buffer, delivered and read back. */
  lemma OneDelivered(o: Out, op: PutOp, ws: seq<Wire>, base: u64)
    requires o.bytes == [] && o.offsets == [] && !o.flags.overflow && ValidOp(op) && Readable(op) && Fits(o, op)
    requires |ws| == if Listed(op) then 1 else 0
    ensures var r := Apply(o, op);
            && WellPut(r) && |r.offsets| == |ws| && !r.flags.overflow
            && (Listed(op) ==> WireAt(r.bytes, r.offsets[0]) == Some(ListedWire(op)))
            && Fetch(Delivered(base, r.bytes, r.offsets, ws), GetFor(op)).1
            == ValuePut(op, if Listed(op) then HandleOf(ws[0]) else 0)
  {
    hide Apply, Delivered, FetchAll, Fetch, WireAt;
    var ops := [op];
    assert ops == [op] + [];
    ApplyEffect(o, op);
    Empties();
    ValuesOne(op, [], ws);
    GetsOne(op, []);
    PutAllNext(o, [], op);
    NoPuts(o);
    assert PutAll(o, ops) == Apply(o, op);
    assert !Apply(o, op).flags.overflow;
    RoundTrip(o, ops, ws, base);
    PutAllWellPut(o, ops);
    WiresFound(o, ops);
    var r := Apply(o, op);
    var k := In(base, |r.bytes|, [], r.offsets, SHARED);
    ReadHeadValue(Delivered(base, r.bytes, r.offsets, ws), GetFor(op), [], k,
                  ValuePut(op, if Listed(op) then HandleOf(ws[0]) else 0), []);
    if Listed(op) {
      assert Wires(ops)[0] == ListedWire(op);
      assert r.offsets[|o.offsets| + 0] == r.offsets[0];
    }
  }

  /** A reply with an empty table is never decoded as a handle. */
  lemma NoTableNoHandle(base: u64, bytes: seq<byte>)
    ensures GetRef(Delivered(base, bytes, [], [])).1 == 0
  {
    var i := Delivered(base, bytes, [], []);
    assert i.table == [];
    assert GetObject(i) == (Failed(i), None);
  }

  /** The plain reply: status 0 to a publisher, no handle to a client. */
  lemma ZeroReply(stack: StackBuffer, base: u64)
    ensures var r := PutUint32(ReplyBuffer(stack), 0);
            && WellPut(r) && r.offsets == []
            && PublishStatus(Delivered(base, r.bytes, [], [])) == 0
            && GetRef(Delivered(base, r.bytes, [], [])).1 == 0
  {
    hide Delivered, GetRef;
    OneDelivered(ReplyBuffer(stack), PutU32(0), [], base);
    NoTableNoHandle(base, PutUint32(ReplyBuffer(stack), 0).bytes);
  }

  /** The status reply of a failed request: an error to a publisher, no handle to a client. */
  lemma StatusReply(base: u64)
    ensures PublishStatus(Delivered(base, [255, 255, 255, 255], [], [])) == -1
    ensures GetRef(Delivered(base, [255, 255, 255, 255], [], [])).1 == 0
  {
    MinusOne();
    var i := Delivered(base, Le32(StatusWord(-1)), [], []);
    assert i.ahead == Le32(StatusWord(-1)) + [];
    ReadU32(i, StatusWord(-1), []);
    NoTableNoHandle(base, Le32(StatusWord(-1)));
  }

  /** The reply to a successful lookup: one listed reference to the handle found, decoded by the
      client as the handle the driver turned it into. */
  lemma RefReply(stack: StackBuffer, h: u32, w: Wire, base: u64)
    requires h != 0
    ensures var r := PutRef(ReplyBuffer(stack), h);
            && WellPut(r) && |r.offsets| == 1 && WireAt(r.bytes, r.offsets[0]) == Some(Handle(h))
            && GetRef(Delivered(base, r.bytes, r.offsets, [w])).1 == HandleOf(w)
  {
    hide Delivered, GetRef, WireAt;
    OneDelivered(ReplyBuffer(stack), PutHandle(h), [w], base);
  }

  lemma UnitsDelivered(stack: StackBuffer, units: seq<u16>, base: u64)
    requires 1 <= |units| <= MAX_NAME + 1
    ensures var r := PutUnits(ReplyBuffer(stack), Some(units));
            && r.offsets == []
            && GetString16(Delivered(base, r.bytes, [], [])).1 == |units| - 1
            && GetString16(Delivered(base, r.bytes, [], [])).2 == if |units| <= 110 then Some(units) else None
  {
    hide GetString16, UnitBytes, Le32;
    var o := ReplyBuffer(stack);
    var r := PutUnits(o, Some(units));
    PutUnitsEffect(o, Some(units));
    ListReply(stack, units);
    if |units| <= 110 {
      Align4Exact(2 * |units|);
      var pad := AppendedUnits(o, units);
      var i := Delivered(base, r.bytes, [], []);
      assert i.ahead == Le32(|units| - 1) + (UnitBytes(units) + pad + []);
      ReadUnits(i, units, pad, []);
    } else {
      LengthAlone(base, |units| - 1);
    }
  }

  /** The list reply: the client decodes the record's name up to its first NUL when that has at
      most 109 units, and a missing string when it has more, although the handler reported
      success. */
  lemma ListDecoded(stack: StackBuffer, name: Name, base: u64)
    requires 1 <= |name| <= MAX_NAME
    ensures var r := PutString16(ReplyBuffer(stack), Some(name + [0]));
            var len := StrLen(name + [0]);
            && r.offsets == []
            && GetString16(Delivered(base, r.bytes, [], [])).1 == len
            && GetString16(Delivered(base, r.bytes, [], [])).2 == if len <= 109 then Some(name[..len] + [0]) else None
  {
    hide Delivered, GetString16, PutUnits, ReplyBuffer, StrLen;
    CName(name);
    var s := name + [0];
    var len := StrLen(s);
    assert StoredUnits(Some(s)) == Some(s[..len + 1]);
    WithTerminator(s, len);
    hide PutString16, StoredUnits;
    UnitsDelivered(stack, s[..len + 1], base);
    StringIsUnits(stack, s);
  }

  lemma WithTerminator(s: seq<u16>, len: nat)
    requires len < |s| && s[len] == 0
    ensures s[..len + 1] == s[..len] + [0]
  {
  }

  lemma StringIsUnits(stack: StackBuffer, s: seq<u16>)
    requires CString(Some(s))
    ensures PutString16(ReplyBuffer(stack), Some(s)) == PutUnits(ReplyBuffer(stack), StoredUnits(Some(s)))
  {
  }

  lemma LengthAlone(base: u64, len: u32)
    ensures GetString16(Delivered(base, Le32(len), [], [])).1 == len
    ensures GetString16(Delivered(base, Le32(len), [], [])).2 == None
  {
    var i := Delivered(base, Le32(len), [], []);
    assert i.ahead == Le32(len) + [];
    ReadU32(i, len, []);
    var j := GetUint32(i).0;
    GetEffect(j, (len + 1) * 2);
    var (k, b) := Get(j, (len + 1) * 2);
    StringSteps(i, j, len, k, b);
  }

  /** The puts of a list request: a position and a priority mask. */
  function ListOps(n: u32, req: u32): seq<PutOp> {
    HeaderOps() + [PutU32(n), PutU32(req)]
  }

  /** The manager reads a list request exactly as it was meant. */
  lemma ListRead(iodata: MessageBuffer, n: u32, req: u32, base: u64)
    ensures ValidOps(ListOps(n, req))
    ensures var f := Request(iodata, ListOps(n, req));
            && !f.flags.overflow && WellPut(f) && f.offsets == []
            && var msg := Delivered(base, f.bytes, f.offsets, []);
            && Header(msg).1
            && GetUint32(Header(msg).0).1 == n && GetUint32(GetUint32(Header(msg).0).0).1 == req
  {
    var ops, tail := ListOps(n, req), [PutU32(n), PutU32(req)];
    ListPuts(n, req);
    ManagerHeader();
    HeaderPuts(0, 0, MANAGER_ID, tail, []);
    ListFits(iodata, n, req);
    hide Request, HeaderOps, HeaderFor, Header, AllReadable, ValuesPut, GetsFor, Wires, Widen, FetchAll;
    hide Delivered, PutAll, GetUint32, PutString16;
    MessageDelivered(iodata, ops, [], base);
    var f := Request(iodata, ops);
    var msg := Delivered(base, f.bytes, f.offsets, []);
    var k := In(base, |f.bytes|, [], f.offsets, SHARED);
    HeaderRead(msg, 0, 0, MANAGER_ID, GetsFor(tail), k, ValuesPut(tail, []));
    var i := Header(msg).0;
    ReadHeadValue(i, GetU32, [GetU32] + [], k, VU32(n), [VU32(req)] + []);
    ReadHeadValue(GetUint32(i).0, GetU32, [], k, VU32(req), []);
  }

  /** A list request, as delivered, is answered from the walk it asks for: an error status when
      the caller may not list or the walk runs out, and otherwise the name of the record where
      the walk stops. */
  lemma ListServed(iodata: MessageBuffer, n: u32, req: u32, base: u64, pol: Policy, reg: seq<Record>, t: TxnSec,
                   reply: Out)
    requires t.txn.target == 0 && t.txn.code == 4
    ensures ValidOps(ListOps(n, req))
    ensures var f := Request(iodata, ListOps(n, req));
            && !f.flags.overflow && WellPut(f) && f.offsets == []
            && var id := Walk(reg, n, req);
            Manage(pol, reg, t, Delivered(base, f.bytes, f.offsets, []), reply)
            == if (pol.mayList)(Caller(t.txn.senderEuid, t.txn.senderPid, t.secctx)) && id.Some?
               then Handled(reg, [], PutString16(reply, Some(AtId(reg, id.value).name + [0])), 0)
               else Handled(reg, [], reply, -1)
  {
    hide Request, ListOps, Header, Delivered, GetUint32, PutString16, Walk;
    ListRead(iodata, n, req, base);
  }

  lemma ListPuts(n: u32, req: u32)
    ensures var ops := [PutU32(n), PutU32(req)];
            && AllReadable(ops) && Wires(ops) == [] && GetsFor(ops) == [GetU32] + ([GetU32] + [])
            && ValuesPut(ops, []) == [VU32(n)] + ([VU32(req)] + [])
  {
    hide GetsFor, Wires;
    Empties();
    var a, b := PutU32(n), PutU32(req);
    var e: seq<PutOp> := [];
    ValuesOne(b, e, []); GetsOne(b, e);
    ValuesOne(a, [b] + e, []); GetsOne(a, [b] + e);
    assert [a] + ([b] + e) == [a, b];
  }

  lemma ListFits(iodata: MessageBuffer, n: u32, req: u32)
    ensures ValidOps(ListOps(n, req)) && Wires(ListOps(n, req)) == []
            && !Request(iodata, ListOps(n, req)).flags.overflow
  {
    hide TotalNeed, Wires, PutAll, HeaderOps;
    NeedNothing();
    var e: seq<PutOp> := [];
    NeedOne(PutU32(req), e);
    NeedOne(PutU32(n), [PutU32(req)] + e);
    HeaderNeeds([PutU32(n)] + ([PutU32(req)] + e));
    assert HeaderOps() + ([PutU32(n)] + ([PutU32(req)] + e)) == ListOps(n, req);
    OverflowExactly(Fresh(iodata, MESSAGE_SLOTS), ListOps(n, req));
  }
}
