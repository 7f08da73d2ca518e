/** The driver's side of references: for each process a table of handles with reference counts,
    the death requests it holds for each handle, and the buffers delivered to the process that it
    has not freed, each pinning the handles inside. A handle whose count falls to zero is gone,
    its death requests with it, and may later be given to another object. */
module Driver {
  import opened Words
  import opened Writer
  import opened Reader
  import opened Delivery
  import opened Commands

  /** A binder object: the process it lives in and its address there. */
  datatype Node = Node(owner: nat, ptr: u64)

  /** The process of the context manager, and the object handle 0 stands for. */
  const MANAGER: nat := 0
  const MANAGER_NODE := Node(MANAGER, 0)

  /** A process as its driver sees it. A driver may hold a single death request per handle, and
      refuse more, or all of them; both kinds are modelled. */
  datatype View = View(node: map<u32, Node>, refs: map<u32, nat>, pins: map<u64, seq<u32>>,
                       deaths: map<u32, seq<u64>>, single: bool)

  function EmptyView(single: bool): View {
    View(map[], map[], map[], map[], single)
  }

  ghost predicate ValidView(v: View) {
    && v.node.Keys == v.refs.Keys && 0 !in v.node && v.deaths.Keys <= v.refs.Keys
    && (v.single ==> forall h | h in v.deaths :: |v.deaths[h]| <= 1)
    && (forall h | h in v.refs :: v.refs[h] > 0)
    && OneToOne(v.node)
  }

  ghost predicate OneToOne(m: map<u32, Node>) {
    forall g, h | g in m && h in m && m[g] == m[h] :: g == h
  }

  function RefCount(v: View, h: u32): nat {
    if h in v.refs then v.refs[h] else 0
  }

  /** The cookies whose death requests the driver holds for h, in the order they were made. */
  function Held(v: View, h: u32): seq<u64> {
    if h in v.deaths then v.deaths[h] else []
  }

  /** What a driver holds after more requests: all, or the first. */
  function Asked(single: bool, held: seq<u64>, more: seq<u64>): seq<u64> {
    if single && |held + more| > 1 then (held + more)[..1] else held + more
  }

  function Count(hs: seq<u32>, h: u32): nat {
    if hs == [] then 0 else (if hs[0] == h then 1 else 0) + Count(hs[1..], h)
  }

  /** Every handle of the smaller table means the same in the larger one. */
  ghost predicate Submap(a: map<u32, Node>, b: map<u32, Node>) {
    forall h | h in a :: h in b && b[h] == a[h]
  }

  // ---------------------------------------------------------------------------------------
  // What user space asks for
  // ---------------------------------------------------------------------------------------

  function Raise(v: View, h: u32): View
    requires h in v.refs
  {
    v.(refs := v.refs[h := v.refs[h] + 1])
  }

  /** One reference less; the last one takes the handle away. */
  function Drop(v: View, h: u32): View
    requires h in v.refs
  {
    if v.refs[h] <= 1 then v.(node := v.node - {h}, refs := v.refs - {h}, deaths := v.deaths - {h})
    else v.(refs := v.refs[h := v.refs[h] - 1])
  }

  function DropAll(v: View, hs: seq<u32>): Option<View>
    decreases |hs|
  {
    if hs == [] then Some(v)
    else if hs[0] !in v.refs then None
    else DropAll(Drop(v, hs[0]), hs[1..])
  }

  function Hold(v: View, h: u32, k: u64): View {
    v.(deaths := v.deaths[h := Asked(v.single, Held(v, h), [k])])
  }

  /** One command; None is an error: a reference to a handle that is gone, or a buffer that is
      not there to be freed. */
  function Exec(v: View, c: Bc): Option<View> {
    match c
    case Acquire(h) => if h in v.refs then Some(Raise(v, h)) else None
    case Release(h) => if h in v.refs then Some(Drop(v, h)) else None
    case RequestDeath(h, k) => if h in v.refs then Some(Hold(v, h, k)) else None
    case FreeBuffer(b) => if b in v.pins then DropAll(v.(pins := v.pins - {b}), v.pins[b]) else None
    case EnterLooper => Some(v)
    case SendReply(_, _, _) => Some(v)
  }

  function ExecAll(v: View, log: seq<Bc>): Option<View>
    decreases |log|
  {
    if log == [] then Some(v)
    else
      var w := Exec(v, log[0]);
      if w.None? then None else ExecAll(w.value, log[1..])
  }

  lemma {:induction false} ExecConcat(v: View, a: seq<Bc>, b: seq<Bc>)
    ensures ExecAll(v, a + b) == if ExecAll(v, a).None? then None else ExecAll(ExecAll(v, a).value, b)
    decreases |a|
  {
    if a == [] {
      assert a + b == b;
    } else {
      assert (a + b)[0] == a[0] && (a + b)[1..] == a[1..] + b;
      var w := Exec(v, a[0]);
      if w.Some? { ExecConcat(w.value, a[1..], b); }
    }
  }

  lemma ExecOne(v: View, c: Bc)
    ensures ExecAll(v, [c]) == Exec(v, c)
  {
    var w := Exec(v, c);
    if w.Some? {
      assert [c][1..] == [];
      assert ExecAll(w.value, []) == w;
    }
  }

  lemma RaiseEffect(v: View, h: u32)
    requires ValidView(v) && h in v.refs
    ensures var w := Raise(v, h);
            && ValidView(w) && w.node == v.node && w.pins == v.pins && w.deaths == v.deaths && w.single == v.single
            && forall x :: RefCount(w, x) == RefCount(v, x) + if x == h then 1 else 0
  {
  }

  lemma DropEffect(v: View, h: u32)
    requires ValidView(v) && h in v.refs
    ensures var w := Drop(v, h);
            && ValidView(w) && Submap(w.node, v.node) && w.pins == v.pins && w.single == v.single
            && (forall x :: RefCount(w, x) == RefCount(v, x) - if x == h then 1 else 0)
            && (forall x | x in w.refs :: Held(w, x) == Held(v, x))
  {
    if v.refs[h] <= 1 {
      LastDropped(v, h);
    } else {
      hide OneToOne;
    }
  }

  lemma LastDropped(v: View, h: u32)
    requires ValidView(v) && h in v.refs && v.refs[h] <= 1
    ensures ValidView(Drop(v, h)) && Submap(Drop(v, h).node, v.node)
  {
    var m := v.node - {h};
    assert OneToOne(m);
    hide OneToOne;
  }

  lemma HoldEffect(v: View, h: u32, k: u64)
    requires ValidView(v) && h in v.refs
    ensures var w := Hold(v, h, k);
            && ValidView(w) && w.node == v.node && w.refs == v.refs && w.pins == v.pins && w.single == v.single
            && forall x :: Held(w, x) == if x == h then Asked(v.single, Held(v, x), [k]) else Held(v, x)
  {
  }

  lemma SubmapTransitive(a: map<u32, Node>, b: map<u32, Node>, c: map<u32, Node>)
    requires Submap(a, b) && Submap(b, c)
    ensures Submap(a, c)
  {
  }

  /** A buffer's references can be given back when they are all accounted for. */
  lemma {:induction false} DropAllEffect(v: View, hs: seq<u32>)
    requires ValidView(v) && forall x :: RefCount(v, x) >= Count(hs, x)
    ensures var w := DropAll(v, hs);
            && w.Some? && ValidView(w.value) && Submap(w.value.node, v.node)
            && w.value.pins == v.pins && w.value.single == v.single
            && (forall x :: RefCount(w.value, x) == RefCount(v, x) - Count(hs, x))
            && (forall x | x in w.value.refs :: Held(w.value, x) == Held(v, x))
    decreases |hs|
  {
    if hs != [] {
      assert RefCount(v, hs[0]) >= Count(hs, hs[0]) >= 1;
      var d := Drop(v, hs[0]);
      DropEffect(v, hs[0]);
      forall x ensures RefCount(d, x) >= Count(hs[1..], x) {
        assert RefCount(v, x) >= Count(hs, x);
      }
      DropAllEffect(d, hs[1..]);
      SubmapTransitive(DropAll(v, hs).value.node, d.node, v.node);
    }
  }

  // ---------------------------------------------------------------------------------------
  // What the driver delivers
  // ---------------------------------------------------------------------------------------

  /** The object a sender's wire object stands for. */
  function NodeOf(sender: nat, from: View, w: Wire): Option<Node> {
    match w
    case Binder(p) => Some(Node(sender, p))
    case Handle(h) => if h == 0 then Some(MANAGER_NODE) else if h in from.node then Some(from.node[h]) else None
  }

  /** The receiver's handle for a node, if it has one. */
  ghost function HandleFor(v: View, n: Node): (h: Option<u32>)
    ensures h.Some? ==> h.value in v.node && v.node[h.value] == n
    ensures h.None? ==> forall g | g in v.node :: v.node[g] != n
  {
    if g: u32 :| g in v.node && v.node[g] == n then Some(g) else None
  }

  datatype Bound = Bound(view: View, wire: Wire, pinned: seq<u32>)

  /** One object handed to process `to`: its own objects come back as local objects; others get
      the handle they have, or the driver's pick of a free one. A pick in use fails. */
  ghost function Bind(v: View, to: nat, n: Node, pick: u32): Option<Bound> {
    if n.owner == to then Some(Bound(v, Binder(n.ptr), []))
    else if n == MANAGER_NODE then Some(Bound(v, Handle(0), []))
    else
      var h := HandleFor(v, n);
      if h.Some? then
        if h.value in v.refs then Some(Bound(Raise(v, h.value), Handle(h.value), [h.value])) else None
      else if pick != 0 && pick !in v.node then
        Some(Bound(v.(node := v.node[pick := n], refs := v.refs[pick := 1]), Handle(pick), [pick]))
      else None
  }

  datatype Translated = Translated(view: View, wires: seq<Wire>, pinned: seq<u32>)

  ghost function Translate(sender: nat, from: View, to: nat, v: View, ws: seq<Wire>,
                           picks: seq<u32>): Option<Translated>
    requires |picks| == |ws|
    decreases |ws|
  {
    if ws == [] then Some(Translated(v, [], []))
    else
      var n := NodeOf(sender, from, ws[0]);
      if n.None? then None
      else
        var b := Bind(v, to, n.value, picks[0]);
        if b.None? then None
        else
          var rest := Translate(sender, from, to, b.value.view, ws[1..], picks[1..]);
          if rest.None? then None
          else Some(Translated(rest.value.view, [b.value.wire] + rest.value.wires, b.value.pinned + rest.value.pinned))
  }

  /** Delivery leaves buffers and death requests as they are. */
  ghost predicate SameRest(v: View, w: View) {
    w.pins == v.pins && w.deaths == v.deaths && w.single == v.single
  }

  lemma BindEffect(v: View, to: nat, n: Node, pick: u32)
    requires ValidView(v) && Bind(v, to, n, pick).Some?
    ensures var b := Bind(v, to, n, pick).value;
            && ValidView(b.view) && Submap(v.node, b.view.node) && SameRest(v, b.view)
            && (forall x :: RefCount(b.view, x) == RefCount(v, x) + Count(b.pinned, x))
            && (HandleOf(b.wire) != 0 ==>
                  HandleOf(b.wire) in b.pinned && HandleOf(b.wire) in b.view.node && b.view.node[HandleOf(b.wire)] == n)
            && (n.owner != to && n != MANAGER_NODE ==> HandleOf(b.wire) != 0)
            && (n.owner == to ==> b.wire.Binder?)
            && (forall h | h in b.view.node && h !in v.node :: b.view.node[h] == n && n.owner != to)
  {
    hide OneToOne, HandleFor, Count;
    var b := Bind(v, to, n, pick).value;
    CountOne(HandleOf(b.wire));
    if n.owner != to && n != MANAGER_NODE {
      if HandleFor(v, n).Some? {
        RaiseEffect(v, HandleFor(v, n).value);
      } else {
        NewHandle(v, n, pick);
      }
    }
  }

  lemma CountOne(h: u32)
    ensures forall x :: Count([h], x) == if x == h then 1 else 0
    ensures forall x :: Count([], x) == 0
  {
    assert [h][1..] == [];
  }

  /** A free handle given to an object that has none. */
  lemma NewHandle(v: View, n: Node, pick: u32)
    requires ValidView(v) && HandleFor(v, n).None? && pick != 0 && pick !in v.node
    ensures var w := v.(node := v.node[pick := n], refs := v.refs[pick := 1]);
            && ValidView(w) && Submap(v.node, w.node)
            && forall x :: RefCount(w, x) == RefCount(v, x) + if x == pick then 1 else 0
  {
    assert pick !in v.refs;
  }

  /** What is known of a translation: the view keeps every handle, each handle delivered is
      pinned and means the object sent, and the counts rise by exactly the pins. */
  ghost predicate GoodTranslation(sender: nat, from: View, to: nat, v: View, ws: seq<Wire>, t: Translated) {
    && ValidView(t.view) && Submap(v.node, t.view.node) && SameRest(v, t.view)
    && (forall x :: RefCount(t.view, x) == RefCount(v, x) + Count(t.pinned, x))
    && |t.wires| == |ws|
    && (forall k :: 0 <= k < |ws| ==> Meant(sender, from, to, ws[k], t.wires[k], t.view, t.pinned))
    && (forall h | h in t.view.node && h !in v.node :: t.view.node[h].owner != to)
  }

  ghost predicate Meant(sender: nat, from: View, to: nat, sent: Wire, got: Wire, view: View, pinned: seq<u32>) {
    var n := NodeOf(sender, from, sent);
    && n.Some?
    && (HandleOf(got) != 0 ==>
          HandleOf(got) in pinned && HandleOf(got) in view.node && view.node[HandleOf(got)] == n.value)
    && (n.value.owner == to ==> got.Binder?)
    && (n.value.owner != to && n.value != MANAGER_NODE ==> HandleOf(got) != 0)
  }

  lemma {:induction false} CountConcat(a: seq<u32>, b: seq<u32>, h: u32)
    ensures Count(a + b, h) == Count(a, h) + Count(b, h)
  {
    if a == [] {
      assert a + b == b;
    } else {
      assert (a + b)[1..] == a[1..] + b;
      CountConcat(a[1..], b, h);
    }
  }

  lemma {:induction false} TranslateEffect(sender: nat, from: View, to: nat, v: View, ws: seq<Wire>, picks: seq<u32>)
    requires ValidView(v) && |picks| == |ws| && Translate(sender, from, to, v, ws, picks).Some?
    ensures GoodTranslation(sender, from, to, v, ws, Translate(sender, from, to, v, ws, picks).value)
    decreases |ws|
  {
    if ws != [] {
      var n := NodeOf(sender, from, ws[0]).value;
      var b := Bind(v, to, n, picks[0]).value;
      var rest := Translate(sender, from, to, b.view, ws[1..], picks[1..]).value;
      BindEffect(v, to, n, picks[0]);
      TranslateEffect(sender, from, to, b.view, ws[1..], picks[1..]);
      GoodCons(sender, from, to, v, ws, n, b, rest);
    }
  }

  lemma GoodCons(sender: nat, from: View, to: nat, v: View, ws: seq<Wire>, n: Node, b: Bound, rest: Translated)
    requires ws != [] && NodeOf(sender, from, ws[0]) == Some(n)
    requires Submap(v.node, b.view.node) && SameRest(v, b.view)
    requires forall x :: RefCount(b.view, x) == RefCount(v, x) + Count(b.pinned, x)
    requires Meant(sender, from, to, ws[0], b.wire, b.view, b.pinned)
    requires forall h | h in b.view.node && h !in v.node :: b.view.node[h].owner != to
    requires GoodTranslation(sender, from, to, b.view, ws[1..], rest)
    ensures GoodTranslation(sender, from, to, v, ws,
                            Translated(rest.view, [b.wire] + rest.wires, b.pinned + rest.pinned))
  {
    var t := Translated(rest.view, [b.wire] + rest.wires, b.pinned + rest.pinned);
    SubmapTransitive(v.node, b.view.node, rest.view.node);
    forall x ensures RefCount(t.view, x) == RefCount(v, x) + Count(t.pinned, x) {
      CountConcat(b.pinned, rest.pinned, x);
    }
    forall k | 0 <= k < |ws| ensures Meant(sender, from, to, ws[k], t.wires[k], t.view, t.pinned) {
      if k > 0 {
        assert Meant(sender, from, to, ws[1..][k - 1], rest.wires[k - 1], rest.view, rest.pinned);
      }
    }
  }

  /** The objects of a message, as the driver finds them; it refuses a message whose table is
      not in order or names something that is not an object. */
  ghost function MessageWires(bytes: seq<byte>, offsets: seq<nat>): (ws: Option<seq<Wire>>)
    ensures ws.Some? ==> Spaced(offsets, |bytes|) && |ws.value| == |offsets|
  {
    if Spaced(offsets, |bytes|) && forall k :: 0 <= k < |offsets| ==> WireAt(bytes, offsets[k]).Some?
    then Some(seq(|offsets|, k requires 0 <= k < |offsets| && Spaced(offsets, |bytes|)
                  && WireAt(bytes, offsets[k]).Some?
                             => WireAt(bytes, offsets[k]).value))
    else None
  }

  /** A message in the receiver's hands: its view of the driver, with the buffer that pins the
      message's handles, and the binder_io over it. */
  datatype Parcel = Parcel(view: View, msg: In, wires: seq<Wire>, pinned: seq<u32>)

  ghost function Deliver(sender: nat, from: View, to: nat, v: View, bytes: seq<byte>, offsets: seq<nat>,
                         picks: seq<u32>, buffer: u64): Option<Parcel>
  {
    var ws := MessageWires(bytes, offsets);
    if ws.None? || |picks| != |offsets| || buffer in v.pins then None
    else
      var t := Translate(sender, from, to, v, ws.value, picks);
      if t.None? || |t.value.wires| != |offsets| then None
      else
        Some(Parcel(t.value.view.(pins := t.value.view.pins[buffer := t.value.pinned]),
                    Delivered(buffer, bytes, offsets, t.value.wires), t.value.wires, t.value.pinned))
  }

  lemma DeliverEffect(sender: nat, from: View, to: nat, v: View, bytes: seq<byte>, offsets: seq<nat>,
                      picks: seq<u32>, buffer: u64)
    requires ValidView(v) && Deliver(sender, from, to, v, bytes, offsets, picks, buffer).Some?
    ensures var p := Deliver(sender, from, to, v, bytes, offsets, picks, buffer).value;
            && MessageWires(bytes, offsets).Some? && |p.wires| == |offsets|
            && p.msg == Delivered(buffer, bytes, offsets, p.wires)
            && p.view.pins == v.pins[buffer := p.pinned]
            && GoodTranslation(sender, from, to, v, MessageWires(bytes, offsets).value,
                               Translated(p.view.(pins := v.pins), p.wires, p.pinned))
  {
    var ws := MessageWires(bytes, offsets).value;
    TranslateEffect(sender, from, to, v, ws, picks);
  }

  /** A nonzero handle read anywhere in a delivered message is one of the message's own objects,
      and so is pinned by the message's buffer. */
  lemma HandleIsDelivered(base: u64, bytes: seq<byte>, offsets: seq<nat>, ws: seq<Wire>, j: In) returns (k: nat)
    requires Spaced(offsets, |bytes|) && |ws| == |offsets|
    requires Behind(j, Delivered(base, bytes, offsets, ws)) && GetRef(j).1 != 0
    ensures k < |offsets| && HandleOf(ws[k]) == GetRef(j).1
  {
    hide Rewrite, GetRef, Get32;
    var i := Delivered(base, bytes, offsets, ws);
    NonzeroRefIsListed(j);
    k :| 0 <= k < |offsets| && offsets[k] == j.pos;
    assert j.ahead == i.ahead[j.pos..];
    ReadBackListed(bytes, offsets, ws, k, base, j.flags);
    assert j == At(base, Rewrite(bytes, offsets, ws), offsets[k], offsets, j.flags);
  }
}
