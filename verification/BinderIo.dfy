/** struct binder_io as an object over a byte buffer: cursors, counters and flags updated in
    place. Each method is proved to compute the value function of Writer or Reader. */
module BinderIo {
  import opened Words
  import opened Writer
  import opened Reader

  /** A writer's value, from the contents of its buffer and its counters. */
  ghost function WrittenIn(m: seq<byte>, d0: nat, d: nat, a: nat, o0: nat, o: nat, slots: nat, flags: Flags): (w: Out)
    requires o0 <= o <= d0 <= d && d + a <= |m|
    ensures |w.bytes| == d - d0 && |w.room| == a && w.slots == slots && w.flags == flags
  {
    Out(m[d0..d], m[d..d + a], Table(m[o0..o]), slots, flags)
  }

  /** Storing contents at the cursor, of which n bytes are consumed. */
  lemma StoreAtCursor(m: seq<byte>, d0: nat, d: nat, a: nat, o0: nat, o: nat, slots: nat, flags: Flags,
                      content: seq<byte>)
    requires o0 <= o <= d0 <= d && d + a <= |m| && |content| <= TWO32 && Align4(|content|) <= a
    ensures var n := Align4(|content|);
            |content| <= n
            && WrittenIn(Splice(m, d, content), d0, d + n, a - n, o0, o, slots, flags)
            == Put(WrittenIn(m, d0, d, a, o0, o, slots, flags), content)
  {
    hide Align4, Table;
    Align4Exact(|content|);
    var n, q := Align4(|content|), Splice(m, d, content);
    SliceOfSlice(m, d, a, |content|, n);
    SliceOfSlice(m, d, a, n, a);
    assert q[d0..d + n] == m[d0..d] + content + m[d..d + a][|content|..n];
    assert q[d + n..d + a] == m[d..d + a][n..] by { SpliceSlices(m, d, content, d + n, d + a); }
    SpliceSlices(m, d, content, o0, o);
  }

  /** Consuming n bytes without storing. */
  lemma Take(m: seq<byte>, d0: nat, d: nat, a: nat, o0: nat, o: nat, slots: nat, flags: Flags, n: nat)
    requires o0 <= o <= d0 <= d && d + a <= |m| && n <= a
    ensures var w := WrittenIn(m, d0, d, a, o0, o, slots, flags);
            && WrittenIn(m, d0, d + n, a - n, o0, o, slots, flags)
            == w.(bytes := w.bytes + w.room[..n], room := w.room[n..])
            && (n >= 16 ==> m[d + 12..d + 16] == w.room[12..16])
  {
    hide Table;
    SliceOfSlice(m, d, a, n, a);
    if n >= 16 { SliceOfSlice(m, d, a, 12, 16); }
    assert m[d0..d + n] == m[d0..d] + m[d..d + a][..n];
  }

  lemma Reflag(m: seq<byte>, d0: nat, d: nat, a: nat, o0: nat, o: nat, slots: nat, before: Flags, after: Flags)
    requires o0 <= o <= d0 <= d && d + a <= |m|
    ensures WrittenIn(m, d0, d, a, o0, o, slots, after) == WrittenIn(m, d0, d, a, o0, o, slots, before).(flags := after)
  {
  }

  /** Storing an offset in the next table entry. */
  lemma StoreInTable(m: seq<byte>, d0: nat, d: nat, a: nat, o0: nat, o: nat, slots: nat, flags: Flags, off: u64)
    requires o0 <= o && (o - o0) % 8 == 0 && o + 8 <= d0 <= d && d + a <= |m| && slots > 0
    ensures var w := WrittenIn(m, d0, d, a, o0, o, slots, flags);
            WrittenIn(Splice(m, o, Le64(off)), d0, d, a, o0, o + 8, slots - 1, flags)
            == w.(offsets := w.offsets + [off], slots := slots - 1)
  {
    hide Table, Le64;
    var q := Splice(m, o, Le64(off));
    SpliceSlices(m, o, Le64(off), d0, d);
    SpliceSlices(m, o, Le64(off), d, d + a);
    assert q[o0..o + 8] == m[o0..o] + Le64(off);
    TableAppend(m[o0..o], off);
  }

  /** Overwriting the last bytes written. */
  lemma StoreBehindCursor(m: seq<byte>, d0: nat, d: nat, a: nat, o0: nat, o: nat, slots: nat, flags: Flags,
                          content: seq<byte>)
    requires o0 <= o <= d0 && d0 + |content| <= d && d + a <= |m|
    ensures var w := WrittenIn(m, d0, d, a, o0, o, slots, flags);
            WrittenIn(Splice(m, d - |content|, content), d0, d, a, o0, o, slots, flags)
            == w.(bytes := w.bytes[..|w.bytes| - |content|] + content)
  {
    hide Table;
    var q := Splice(m, d - |content|, content);
    SpliceSlices(m, d - |content|, content, d, d + a);
    SpliceSlices(m, d - |content|, content, o0, o);
    assert q[d0..d] == m[d0..d][..d - d0 - |content|] + content;
  }

  /** The field stores of an object add up to the object. */
  lemma FieldStores(m: seq<byte>, at: nat, w: Wire)
    requires at + OBJ_SIZE <= |m|
    ensures var t := if w.Binder? then BINDER_TYPE_BINDER else BINDER_TYPE_HANDLE;
            var p := if w.Binder? then Le64(w.ptr) else Le32(w.handle);
            Splice(Splice(Splice(Splice(m, at + 4, Le32(OBJ_FLAGS)), at, Le32(t)), at + 8, p), at + 16, Le64(0))
            == Splice(m, at, ObjectBytes(w, m[at + 12..at + 16]))
  {
    hide Le32, Le64, Splice;
    var t := if w.Binder? then BINDER_TYPE_BINDER else BINDER_TYPE_HANDLE;
    var p := if w.Binder? then Le64(w.ptr) else Le32(w.handle);
    var head := Le32(t) + Le32(OBJ_FLAGS);
    SpliceTwice(m, at, Le32(t), 0, Le32(OBJ_FLAGS));
    assert Le32(t) + m[at + 4..at + 4] + Le32(OBJ_FLAGS) == head;
    SpliceTwice(m, at, head, 0, p);
    assert head + m[at + 8..at + 8] + p == head + p;
    var gap := 8 - |p|;
    SpliceTwice(m, at, head + p, gap, Le64(0));
    assert head + p + m[at + 8 + |p|..at + 16] + Le64(0) == ObjectBytes(w, m[at + 12..at + 16]);
  }

  /** A reader's value, from the contents of its buffer and its counters. */
  ghost function ReceivedIn(m: seq<byte>, d0: u64, d: nat, a: nat, o: nat, n: nat, flags: Flags): (i: In)
    requires d0 <= d && d + a <= |m| && o + 8 * n <= |m|
    ensures i.base == d0 && i.pos == d - d0 && |i.ahead| == a && |i.table| == n && i.flags == flags
  {
    In(d0, d - d0, m[d..d + a], Table(m[o..o + 8 * n]), flags)
  }

  /** Taking size bytes at the cursor, rounded up. */
  lemma GetAt(m: seq<byte>, d0: u64, d: nat, a: nat, o: nat, n: nat, flags: Flags, size: nat)
    requires d0 <= d && d + a <= |m| && o + 8 * n <= |m|
    ensures var i, t := ReceivedIn(m, d0, d, a, o, n, flags), Align4(size);
            Get(i, size) == if a < t then (Failed(i), None)
                            else (ReceivedIn(m, d0, d + t, a - t, o, n, flags), Some(m[d..d + t]))
  {
    hide Align4, Table;
    var t := Align4(size);
    if t <= a {
      SliceOfSlice(m, d, a, 0, t);
      SliceOfSlice(m, d, a, t, a);
    }
  }

  lemma FailAt(m: seq<byte>, d0: u64, d: nat, a: nat, o: nat, n: nat, flags: Flags)
    requires d0 <= d && d + a <= |m| && o + 8 * n <= |m|
    ensures Failed(ReceivedIn(m, d0, d, a, o, n, flags)) == ReceivedIn(m, d0, d, 0, o, n, flags.(overflow := true))
  {
    hide Table;
  }

  lemma InitAt(m: seq<byte>, buffer: u64, dataSize: nat, offsets: nat, offsetsSize: nat)
    requires buffer + dataSize <= |m| && offsets + offsetsSize <= |m|
    ensures offsets + 8 * (offsetsSize / 8) <= |m|
    ensures ReceivedIn(m, buffer, buffer, dataSize, offsets, offsetsSize / 8, Flags(true, false, false))
         == FromBuffer(m, buffer, dataSize, offsets, offsetsSize)
  {
    hide Table;
    assert 8 * (offsetsSize / 8) == offsetsSize / 8 * 8 <= offsetsSize;
  }

  /** The entries of a reader's table. */
  lemma EntryAt(m: seq<byte>, d0: u64, d: nat, a: nat, o: nat, n: nat, flags: Flags, k: nat)
    requires d0 <= d && d + a <= |m| && o + 8 * n <= |m| && k < n
    ensures ReceivedIn(m, d0, d, a, o, n, flags).table[k] == Get64(m, o + 8 * k)
  {
    hide Get64, Table;
    TableEntry(m, o, n, k);
  }

  class Bio {
    var mem: array<byte>
    var data: nat
    var offs: nat
    var dataAvail: nat
    var offsAvail: nat
    var data0: u64
    var offs0: nat
    var flags: Flags

    constructor (buffer: array<byte>)
      ensures mem == buffer
    {
      mem := buffer;
      flags := CLEAN;
    }

    /** A writer: the offset table precedes the data region, both in the buffer. */
    ghost predicate ValidOut()
      reads this
    {
      && mem.Length < TWO64
      && offs0 <= offs && (offs - offs0) % 8 == 0
      && offs + 8 * offsAvail <= data0 <= data && data + dataAvail <= mem.Length
    }

    ghost function Written(): Out
      requires ValidOut()
      reads this, mem
    {
      WrittenIn(mem[..], data0, data, dataAvail, offs0, offs, offsAvail, flags)
    }

    /** A reader of a delivered message, data and table anywhere in the buffer. */
    ghost predicate ValidIn()
      reads this
    {
      data0 <= data && data + dataAvail <= mem.Length && offs + 8 * offsAvail <= mem.Length
    }

    ghost function Received(): In
      requires ValidIn()
      reads this, mem
    {
      ReceivedIn(mem[..], data0, data, dataAvail, offs, offsAvail, flags)
    }

    /** bio_init. On failure the cursors keep whatever they held. */
    method Init(buffer: array<byte>, maxdata: nat, maxoffs: nat)
      requires maxdata <= buffer.Length < TWO64
      modifies this
      ensures (8 * maxoffs) % TWO64 > maxdata ==>
                && flags == Flags(false, true, false) && dataAvail == offsAvail == 0
                && mem == old(mem) && data == old(data) && offs == old(offs)
                && data0 == old(data0) && offs0 == old(offs0)
      ensures (8 * maxoffs) % TWO64 <= maxdata ==>
                && mem == buffer && data == data0 == (8 * maxoffs) % TWO64 && offs == offs0 == 0
                && dataAvail == maxdata - data0 && offsAvail == maxoffs && flags == Flags(false, false, false)
      ensures 8 * maxoffs <= maxdata ==>
                ValidOut() && mem == buffer && Written() == Fresh(buffer[..maxdata], maxoffs)
    {
      var n := (maxoffs * 8) % TWO64;
      if n > maxdata {
        flags := Flags(false, true, false);
        dataAvail := 0;
        offsAvail := 0;
        return;
      }
      mem := buffer;
      data0 := n;
      data := data0;
      offs0 := 0;
      offs := offs0;
      dataAvail := maxdata - n;
      offsAvail := maxoffs;
      flags := CLEAN;
    }

    method Alloc(size: nat) returns (ptr: Option<nat>)
      requires ValidOut() && size <= TWO32
      modifies this`data, this`dataAvail, this`flags
      ensures ValidOut()
      ensures if Align4(size) > old(dataAvail)
              then ptr == None && flags == old(flags).(overflow := true) && data == old(data)
                  && dataAvail == old(dataAvail)
              else ptr == Some(old(data)) && flags == old(flags)
                   && data == old(data) + Align4(size) && dataAvail == old(dataAvail) - Align4(size)
    {
      var n := Align4(size);
      if n > dataAvail {
        flags := flags.(overflow := true);
        ptr := None;
      } else {
        ptr := Some(data);
        data := data + n;
        dataAvail := dataAvail - n;
      }
    }

    /** Stores through a pointer: an assignment to *ptr, a field, or memcpy. */
    method Store(ptr: nat, content: seq<byte>)
      requires ptr + |content| <= mem.Length
      modifies mem
      ensures mem[..] == Splice(old(mem[..]), ptr, content)
    {
      forall k | 0 <= k < |content| {
        mem[ptr + k] := content[k];
      }
    }

    /** An allocation filled at once: `ptr = bio_alloc(...); if (ptr) ...`. */
    method AllocStore(content: seq<byte>)
      requires ValidOut() && |content| <= TWO32
      modifies this`data, this`dataAvail, this`flags, mem
      ensures ValidOut() && Written() == Put(old(Written()), content)
    {
      hide Align4, Splice, Table;
      StoreFits(content);
      var p := Alloc(|content|);
      if p.Some? {
        Store(p.value, content);
      }
    }

    lemma StoreFits(content: seq<byte>)
      requires ValidOut() && |content| <= TWO32
      ensures Align4(|content|) <= dataAvail ==>
                var n := Align4(|content|);
                && |content| <= n
                && WrittenIn(Splice(mem[..], data, content), data0, data + n, dataAvail - n, offs0, offs, offsAvail,
                             flags)
                == Put(Written(), content)
    {
      if Align4(|content|) <= dataAvail {
        StoreAtCursor(mem[..], data0, data, dataAvail, offs0, offs, offsAvail, flags, content);
      }
    }

    method PutUint32(n: u32)
      requires ValidOut()
      modifies this`data, this`dataAvail, this`flags, mem
      ensures ValidOut() && Written() == Writer.PutUint32(old(Written()), n)
    {
      AllocStore(Le32(n));
    }

    /** The object's bytes without a table entry, as bio_put_ref takes them for handle 0. */
    method AllocUnlisted() returns (obj: Option<nat>)
      requires ValidOut()
      modifies this`data, this`dataAvail, this`flags
      ensures ValidOut()
      ensures var o, p := old(Written()), Written();
              if OBJ_SIZE > |o.room| then obj == None && p == Overflowed(o)
              else
                obj == Some(old(data)) && obj.value + OBJ_SIZE == data
                && mem[obj.value + 12..obj.value + 16] == o.room[12..16]
                && p == o.(bytes := o.bytes + o.room[..OBJ_SIZE], room := o.room[OBJ_SIZE..])
    {
      hide WrittenIn;
      ghost var m := mem[..];
      if OBJ_SIZE <= dataAvail {
        Take(m, data0, data, dataAvail, offs0, offs, offsAvail, flags, OBJ_SIZE);
        assert mem[data + 12..data + 16] == m[data + 12..data + 16];
      }
      Reflag(m, data0, data, dataAvail, offs0, offs, offsAvail, flags, flags.(overflow := true));
      obj := Alloc(OBJ_SIZE);
    }

    /** bio_alloc_obj: the 24 bytes are taken even when the table is full. */
    method AllocObj() returns (obj: Option<nat>)
      requires ValidOut()
      modifies this`data, this`dataAvail, this`flags, this`offs, this`offsAvail, mem
      ensures ValidOut()
      ensures var o, p := old(Written()), Written();
              if OBJ_SIZE > |o.room| then obj == None && p == Overflowed(o)
              else if o.slots == 0 then
                obj == None
                && p == Overflowed(o.(bytes := o.bytes + o.room[..OBJ_SIZE], room := o.room[OBJ_SIZE..]))
              else
                obj == Some(old(data)) && obj.value + OBJ_SIZE == data
                && mem[obj.value + 12..obj.value + 16] == o.room[12..16]
                && p == o.(bytes := o.bytes + o.room[..OBJ_SIZE], room := o.room[OBJ_SIZE..],
                           offsets := o.offsets + [|o.bytes|], slots := o.slots - 1)
    {
      hide Splice, Le64, WrittenIn;
      obj := AllocUnlisted();
      ghost var m := mem[..];
      if obj.Some? && offsAvail > 0 {
        var off: u64 := obj.value - data0;
        StoreInTable(m, data0, data, dataAvail, offs0, offs, offsAvail, flags, off);
        SpliceSlices(m, offs, Le64(off), obj.value + 12, obj.value + 16);
        offsAvail := offsAvail - 1;
        Store(offs, Le64(off));
        assert mem[obj.value + 12..obj.value + 16] == mem[..][obj.value + 12..obj.value + 16];
        assert m[obj.value + 12..obj.value + 16] == old(Written()).room[12..16];
        offs := offs + 8;
        return;
      }
      Reflag(m, data0, data, dataAvail, offs0, offs, offsAvail, flags, flags.(overflow := true));
      flags := flags.(overflow := true);
      obj := None;
    }

    /** The field stores of an object just allocated: the last 24 bytes written. */
    method StoreObject(obj: nat, w: Wire)
      requires ValidOut() && data0 <= obj && obj + OBJ_SIZE == data
      modifies mem
      ensures ValidOut()
      ensures Written() == old(Written()).(bytes := old(Written()).bytes[..obj - data0]
                             + ObjectBytes(w, old(mem[obj + 12..obj + 16])))
    {
      hide Splice, Table, ObjectBytes, Le32, Le64;
      ghost var m := mem[..];
      FieldStores(m, obj, w);
      StoreBehindCursor(m, data0, data, dataAvail, offs0, offs, offsAvail, flags,
                        ObjectBytes(w, m[obj + 12..obj + 16]));
      assert m[obj + 12..obj + 16] == mem[obj + 12..obj + 16];
      Store(obj + 4, Le32(OBJ_FLAGS));
      match w {
        case Binder(p) =>
          Store(obj, Le32(BINDER_TYPE_BINDER));
          Store(obj + 8, Le64(p));
        case Handle(h) =>
          Store(obj, Le32(BINDER_TYPE_HANDLE));
          Store(obj + 8, Le32(h));
      }
      Store(obj + 16, Le64(0));
    }

    method PutObj(ptr: u64)
      requires ValidOut()
      modifies this`data, this`dataAvail, this`flags, this`offs, this`offsAvail, mem
      ensures ValidOut() && Written() == Writer.PutObj(old(Written()), ptr)
    {
      hide WrittenIn, ObjectBytes;
      var obj := AllocObj();
      if obj.Some? {
        StoreObject(obj.value, Binder(ptr));
      }
    }

    method PutRef(handle: u32)
      requires ValidOut()
      modifies this`data, this`dataAvail, this`flags, this`offs, this`offsAvail, mem
      ensures ValidOut() && Written() == Writer.PutRef(old(Written()), handle)
    {
      hide ObjectBytes, WrittenIn;
      var obj;
      if handle != 0 {
        obj := AllocObj();
      } else {
        obj := AllocUnlisted();
      }
      if obj.Some? {
        StoreObject(obj.value, Handle(handle));
      }
    }

    /** The scan for the terminator. */
    method Scan(str: seq<int>) returns (len: nat)
      requires 0 in str
      ensures len == StrLen(str)
    {
      len := 0;
      while str[len] != 0
        invariant len < |str| && 0 !in str[..len]
        decreases |str| - len
      {
        len := len + 1;
      }
      StrLenUnique(str, len);
    }

    method PutString16(str: Option<seq<u16>>)
      requires ValidOut() && CString(str)
      modifies this`data, this`dataAvail, this`flags, mem
      ensures ValidOut() && Written() == Writer.PutString16(old(Written()), str)
    {
      hide WrittenIn, UnitBytes;
      if str.None? {
        PutUint32(NULL_STRING);
        return;
      }
      var len := Scan(str.value);
      if len >= MAX_UNITS {
        PutUint32(NULL_STRING);
        return;
      }
      PutUint32(len);
      AllocStore(UnitBytes(str.value[..len + 1]));
    }

    method PutString16X(str: Option<seq<byte>>)
      requires ValidOut() && CString(str)
      modifies this`data, this`dataAvail, this`flags, mem
      ensures ValidOut() && Written() == Writer.PutString16X(old(Written()), str)
    {
      hide WrittenIn, UnitBytes, Align4;
      if str.None? {
        PutUint32(NULL_STRING);
        return;
      }
      var len := Scan(str.value);
      if len >= MAX_UNITS {
        PutUint32(NULL_STRING);
        return;
      }
      PutUint32(len);
      ghost var units := Widen(str.value[..len]) + [0];
      StoreFits(UnitBytes(units));
      Align4Exact(|UnitBytes(units)|);
      Reflag(mem[..], data0, data, dataAvail, offs0, offs, offsAvail, flags, flags.(overflow := true));
      var ptr := Alloc((len + 1) * 2);
      if ptr.Some? {
        StoreWidened(ptr.value, str.value, len);
      }
    }

    /** `while (*str) *ptr++ = *str++; *ptr++ = 0;` */
    method StoreWidened(ptr: nat, str: seq<byte>, ghost len: nat)
      requires 0 in str && len == StrLen(str) && ptr + 2 * (len + 1) <= mem.Length
      modifies mem
      ensures mem[..] == Splice(old(mem[..]), ptr, UnitBytes(Widen(str[..len]) + [0]))
    {
      hide Splice, Le16, UnitBytes, Widen;
      ghost var m := mem[..];
      var k := 0;
      assert str[..0] == [];
      StoreNothing(m, ptr);
      while str[k] != 0
        invariant k <= len
        decreases len - k
        invariant mem[..] == Splice(m, ptr, UnitBytes(Widen(str[..k])))
      {
        StoreUnit(m, ptr, Widen(str[..k]), str[k]);
        WidenNext(str, k);
        Store(ptr + 2 * k, Le16(str[k]));
        k := k + 1;
      }
      assert k == len;
      StoreUnit(m, ptr, Widen(str[..k]), 0);
      Store(ptr + 2 * k, Le16(0));
    }

    /** bio_init_from_txn. */
    method InitFromTxn(mapped: array<byte>, buffer: u64, dataSize: nat, offsets: nat, offsetsSize: nat)
      requires buffer + dataSize <= mapped.Length && offsets + offsetsSize <= mapped.Length
      modifies this
      ensures ValidIn() && mem == mapped && Received() == FromBuffer(mapped[..], buffer, dataSize, offsets, offsetsSize)
    {
      hide ReceivedIn, FromBuffer;
      InitAt(mapped[..], buffer, dataSize, offsets, offsetsSize);
      mem := mapped;
      data0 := buffer;
      data := data0;
      offs0 := offsets;
      offs := offs0;
      dataAvail := dataSize;
      offsAvail := offsetsSize / 8;
      flags := SHARED;
    }

    /** memset(reply, 0) with the error flag raised. */
    method Zero()
      modifies this
      ensures flags == Flags(false, false, true) && data == data0 == offs == offs0 == dataAvail == offsAvail == 0
      ensures mem == old(mem)
      ensures ValidIn()
    {
      data, offs, dataAvail, offsAvail, data0, offs0 := 0, 0, 0, 0, 0, 0;
      flags := IOERROR;
    }

    method GetBytes(size: nat) returns (ptr: Option<nat>)
      requires ValidIn()
      modifies this`data, this`dataAvail, this`flags
      ensures ValidIn()
      ensures var (j, b) := Get(old(Received()), size);
              && Received() == j
              && (ptr.Some? <==> b.Some?)
              && (ptr.Some? ==> ptr.value + |b.value| <= mem.Length
                                && mem[..][ptr.value..ptr.value + |b.value|] == b.value)
    {
      hide ReceivedIn, Align4, Get, Failed;
      GetAt(mem[..], data0, data, dataAvail, offs, offsAvail, flags, size);
      FailAt(mem[..], data0, data, dataAvail, offs, offsAvail, flags);
      var n := Align4(size);
      if dataAvail < n {
        dataAvail := 0;
        flags := flags.(overflow := true);
        ptr := None;
      } else {
        ptr := Some(data);
        data := data + n;
        dataAvail := dataAvail - n;
      }
    }

    method GetUint32() returns (n: u32)
      requires ValidIn()
      modifies this`data, this`dataAvail, this`flags
      ensures ValidIn() && (Received(), n) == Reader.GetUint32(old(Received()))
    {
      hide Received, Get32;
      var p := GetBytes(4);
      n := if p.Some? then Get32(mem[..][p.value..p.value + 4], 0) else 0;
    }

    /** bio_get_string16: a pointer into the buffer. */
    method GetString16() returns (ptr: Option<nat>, sz: u32)
      requires ValidIn()
      modifies this`data, this`dataAvail, this`flags
      ensures ValidIn()
      ensures var (k, len, s) := Reader.GetString16(old(Received()));
              && Received() == k && sz == len
              && (ptr.Some? <==> s.Some?)
              && (ptr.Some? ==> ptr.value + (sz + 1) * 2 <= mem.Length
                                && Units(mem[..][ptr.value..ptr.value + (sz + 1) * 2]) == s.value)
    {
      hide Received, Units, Align4, Get, Reader.GetUint32, Reader.GetString16;
      ghost var i := Received();
      sz := GetUint32();
      ghost var j := Received();
      ghost var (k, b) := Get(j, (sz + 1) * 2);
      StringSteps(i, j, sz, k, b);
      ptr := GetBytes((sz + 1) * 2);
      if ptr.Some? {
        SliceOfSlice(mem[..], ptr.value, |b.value|, 0, (sz + 1) * 2);
      }
    }

    /** _bio_get_obj: a search of the table for the current distance from data0. */
    method GetObj() returns (ptr: Option<nat>)
      requires ValidIn()
      modifies this`data, this`dataAvail, this`flags
      ensures ValidIn()
      ensures var (j, b) := GetObject(old(Received()));
              && Received() == j
              && (ptr.Some? <==> b.Some?)
              && (ptr.Some? ==> ptr.value + |b.value| <= mem.Length
                                && mem[..][ptr.value..ptr.value + |b.value|] == b.value)
    {
      hide ReceivedIn, Align4, Get, Failed;
      FailAt(mem[..], data0, data, dataAvail, offs, offsAvail, flags);
      var listed := FindOffset(data - data0);
      if listed {
        ptr := GetBytes(OBJ_SIZE);
        return;
      }
      dataAvail := 0;
      flags := flags.(overflow := true);
      ptr := None;
    }

    method FindOffset(off: nat) returns (found: bool)
      requires ValidIn()
      ensures found <==> off in Received().table
    {
      hide ReceivedIn, Get64;
      var n := 0;
      while n < offsAvail
        invariant n <= offsAvail
        invariant off !in Received().table[..n]
      {
        EntryAt(mem[..], data0, data, dataAvail, offs, offsAvail, flags, n);
        if Get64(mem[..], offs + 8 * n) == off {
          return true;
        }
        n := n + 1;
      }
      assert Received().table[..n] == Received().table;
      return false;
    }

    method GetRef() returns (handle: u32)
      requires ValidIn()
      modifies this`data, this`dataAvail, this`flags
      ensures ValidIn() && (Received(), handle) == Reader.GetRef(old(Received()))
    {
      hide Received, Get32;
      var obj := GetObj();
      if obj.None? {
        return 0;
      }
      var b := mem[..][obj.value..obj.value + OBJ_SIZE];
      if Get32(b, 0) == BINDER_TYPE_HANDLE {
        return Get32(b, 8);
      }
      return 0;
    }
  }

  lemma StoreNothing(m: seq<byte>, ptr: nat)
    requires ptr <= |m|
    ensures Splice(m, ptr, UnitBytes(Widen([]))) == m
  {
  }

  lemma WidenNext(str: seq<byte>, k: nat)
    requires k < |str|
    ensures Widen(str[..k + 1]) == Widen(str[..k]) + [str[k]]
  {
  }

  lemma StoreUnit(m: seq<byte>, ptr: nat, s: seq<u16>, c: u16)
    requires ptr + 2 * (|s| + 1) <= |m|
    ensures Splice(Splice(m, ptr, UnitBytes(s)), ptr + 2 * |s|, Le16(c)) == Splice(m, ptr, UnitBytes(s + [c]))
  {
    hide Splice, UnitBytes, Le16;
    UnitBytesAppend(s, c);
    StoreNext(m, ptr, UnitBytes(s), Le16(c));
  }

  lemma StoreNext(m: seq<byte>, ptr: nat, s: seq<byte>, t: seq<byte>)
    requires ptr + |s| + |t| <= |m|
    ensures Splice(Splice(m, ptr, s), ptr + |s|, t) == Splice(m, ptr, s + t)
  {
    hide Splice;
    SpliceTwice(m, ptr, s, 0, t);
    assert s + m[ptr + |s|..ptr + |s|] + t == s + t;
  }
}
