/** Accounting, death links and enumeration over every run of the registry. */
module RegistryLaws {
  import opened Words
  import opened Commands
  import opened Registry

  // ---------------------------------------------------------------------------------------
  // Reference conservation
  // ---------------------------------------------------------------------------------------

  /** BC_ACQUIRE(h) minus BC_RELEASE(h) in a log. */
  function Net(log: seq<Bc>, h: u32): int {
    if log == [] then 0
    else (if log[0] == Acquire(h) then 1 else if log[0] == Release(h) then -1 else 0) + Net(log[1..], h)
  }

  /** How many records hold h. */
  function Holders(reg: seq<Record>, h: u32): nat {
    if reg == [] then 0 else (if reg[0].handle == h then 1 else 0) + Holders(reg[1..], h)
  }

  lemma {:induction false} NetConcat(a: seq<Bc>, b: seq<Bc>, h: u32)
    ensures Net(a + b, h) == Net(a, h) + Net(b, h)
  {
    if a == [] {
      assert a + b == b;
    } else {
      assert (a + b)[1..] == a[1..] + b;
      NetConcat(a[1..], b, h);
    }
  }

  function One(b: bool): int {
    if b then 1 else 0
  }

  lemma {:induction false} HoldersUpdate(reg: seq<Record>, i: nat, r: Record, h: u32)
    requires i < |reg|
    ensures Holders(reg[i := r], h) == Holders(reg, h) - One(reg[i].handle == h) + One(r.handle == h)
  {
    if i == 0 {
      assert reg[i := r][1..] == reg[1..];
    } else {
      assert reg[i := r][1..] == reg[1..][i - 1 := r];
      HoldersUpdate(reg[1..], i - 1, r, h);
    }
  }

  lemma NetPair(a: Bc, b: Bc, h: u32)
    ensures Net([a], h) == One(a == Acquire(h)) - One(a == Release(h))
    ensures Net([a, b], h) == Net([a], h) + Net([b], h)
  {
    assert [a, b] == [a] + [b];
    NetConcat([a], [b], h);
    assert [a][1..] == [];
  }

  lemma DeathNet(reg: seq<Record>, k: u64, h: u32)
    requires h != 0
    ensures Net(Death(reg, k).1, h) == Holders(Death(reg, k).0, h) - Holders(reg, h)
  {
    if k < |reg| && AtId(reg, k).handle != 0 {
      HoldersUpdate(reg, |reg| - 1 - k, AtId(reg, k).(handle := 0), h);
      NetPair(Release(AtId(reg, k).handle), Release(0), h);
    }
  }

  lemma LinkNet(id: nat, handle: u32, h: u32)
    ensures Net(Link(id, handle), h) == One(handle == h)
  {
    NetPair(Acquire(handle), RequestDeath(handle, Cookie(id)), h);
    NetPair(RequestDeath(handle, Cookie(id)), Release(0), h);
  }

  lemma OverrideNet(reg: seq<Record>, id: nat, handle: u32, h: u32)
    requires id < |reg| <= TWO64 && h != 0
    ensures Net(Overridden(reg, id, handle).1, h) == Holders(Overridden(reg, id, handle).0, h) - Holders(reg, h)
  {
    OverriddenIs(reg, id, handle);
    hide Net, Holders, Link, Overridden;
    var l := if AtId(reg, id).handle != 0 then [Release(AtId(reg, id).handle)] else [];
    NetConcat(l, Link(id, handle), h);
    LinkNet(id, handle, h);
    HoldersUpdate(reg, |reg| - 1 - id, AtId(reg, id).(handle := handle), h);
    if AtId(reg, id).handle != 0 {
      NetPair(Release(AtId(reg, id).handle), Release(0), h);
    } else {
      NoNet(h);
    }
  }

  lemma NoNet(h: u32)
    ensures Net([], h) == 0
  {
  }

  /** One event changes what the log owes a handle by what it changes in its holders. */
  lemma EventConserves(reg: seq<Record>, e: Event, h: u32)
    requires WellFormedReg(reg) && h != 0
    ensures Net(ApplyEvent(reg, e).1, h) == Holders(ApplyEvent(reg, e).0, h) - Holders(reg, h)
  {
    match e
    case DeathEvent(k) => DeathNet(reg, k, h);
    case AddEvent(pol, a) =>
      if Accepts(pol, reg, a) {
        var f := Find(reg, a.name);
        if f.Some? {
          hide Net, Holders, Find, Accepts, Overridden;
          OverrideNet(reg, f.value, a.handle, h);
        } else {
          LinkNet(|reg|, a.handle, h);
          assert ([Record(a.name, a.handle, a.allowIsolated, a.priority)] + reg)[1..] == reg;
        }
      }
  }

  /** Reference conservation, over every run of adds and deaths: for every nonzero handle the
      acquires sent less the releases sent are exactly the records holding it. */
  lemma {:induction false} Conservation(es: seq<Event>, h: u32)
    requires h != 0
    ensures Net(LogAfter(es), h) == Holders(RegAfter(es), h)
    decreases |es|
  {
    if es != [] {
      var n := |es| - 1;
      Conservation(es[..n], h);
      RunKeeps(es[..n], 0);
      EventConserves(RegAfter(es[..n]), es[n], h);
      NetConcat(LogAfter(es[..n]), ApplyEvent(RegAfter(es[..n]), es[n]).1, h);
    }
  }

  // ---------------------------------------------------------------------------------------
  // Death links
  // ---------------------------------------------------------------------------------------

  /** The cookies whose death notification a log requests for h, in order. */
  function LinkedTo(log: seq<Bc>, h: u32): seq<u64> {
    if log == [] then []
    else if log[0].RequestDeath? && log[0].handle == h then [log[0].cookie] + LinkedTo(log[1..], h)
    else LinkedTo(log[1..], h)
  }

  /** Every live record is linked to the handle it holds. */
  lemma {:induction false} HoldersAreLinked(es: seq<Event>, k: nat)
    requires k < |RegAfter(es)| && AtId(RegAfter(es), k).handle != 0
    ensures RequestDeath(AtId(RegAfter(es), k).handle, Cookie(k)) in LogAfter(es)
    decreases |es|
  {
    var n := |es| - 1;
    var reg, e := RegAfter(es[..n]), es[n];
    RunKeeps(es[..n], 0);
    EventKeeps(reg, e);
    HolderFrom(reg, e, k);
    hide ApplyEvent, Accepts, Find, WellFormedReg, Grown, Target;
    if Accepted(reg, e) && Target(reg, e.args) == k {
      EventWrites(reg, e);
      CookieIsId(k);
      assert RequestDeath(e.args.handle, k) in [Acquire(e.args.handle), RequestDeath(e.args.handle, k)];
    } else {
      HoldersAreLinked(es[..n], k);
    }
  }

  /** A record that holds a handle after an event was registered by it, or held it before. */
  lemma HolderFrom(reg: seq<Record>, e: Event, k: nat)
    requires WellFormedReg(reg) && k < |ApplyEvent(reg, e).0| && AtId(ApplyEvent(reg, e).0, k).handle != 0
    ensures (Accepted(reg, e) && Target(reg, e.args) == k)
            || (k < |reg| && AtId(ApplyEvent(reg, e).0, k) == AtId(reg, k))
  {
    EventIsEffect(reg, e);
    hide ApplyEvent, Accepts;
    if k < |reg| && !(Accepted(reg, e) && Target(reg, e.args) == k) {
      var name := AtId(reg, k).name;
      FindUnique(reg, name, k);
      RecordSurvives(reg, e, name, k);
    }
  }

  /** The death callbacks for a list of cookies. */
  function Notify(reg: seq<Record>, cookies: seq<u64>): seq<Record>
    decreases |cookies|
  {
    if cookies == [] then reg else Notify(Death(reg, cookies[0]).0, cookies[1..])
  }

  lemma {:induction false} NotifyEffect(reg: seq<Record>, cookies: seq<u64>, k: nat)
    requires k < |reg| <= TWO64
    ensures |Notify(reg, cookies)| == |reg|
    ensures AtId(Notify(reg, cookies), k)
         == if Cookie(k) in cookies then AtId(reg, k).(handle := 0) else AtId(reg, k)
    decreases |cookies|
  {
    if cookies != [] {
      NotifyEffect(Death(reg, cookies[0]).0, cookies[1..], k);
      assert Cookie(k) == k;
    }
  }

  /** A run of three registrations: name and second for handle 1, then name again for handle 2. */
  function Renamed(pol: Policy, name: Name, second: Name, c: Caller): seq<Event> {
    [AddEvent(pol, AddArgs(name, 1, c, false, 0)), AddEvent(pol, AddArgs(second, 1, c, false, 0)),
     AddEvent(pol, AddArgs(name, 2, c, false, 0))]
  }

  /** A stale link at work: handle 1 still has a reference and its first death request still
      carries the record of name, which now holds the live handle 2. When 1 dies, the callback
      with that cookie alone, as well as those of all requests, makes name unfindable. */
  lemma StaleDeathClears(pol: Policy, name: Name, second: Name, c: Caller, other: Caller)
    requires pol.memory && 1 <= |name| <= MAX_NAME && 1 <= |second| <= MAX_NAME && name != second
    requires c.uid % 100000 < 10000 && (pol.mayAdd)(name, c) && (pol.mayAdd)(second, c)
    requires (pol.mayFind)(name, other) && !(99000 <= other.uid % 100000 <= 99999)
    ensures var es := Renamed(pol, name, second, c);
            var reg, linked := RegAfter(es), LinkedTo(LogAfter(es), 1);
            && Net(LogAfter(es), 1) == 1 && |linked| == 2
            && FindService(pol, reg, name, other) == 2
            && FindService(pol, Registry.Death(reg, linked[0]).0, name, other) == 0
            && FindService(pol, Notify(reg, linked), name, other) == 0
  {
    var es := Renamed(pol, name, second, c);
    RenamedRun(pol, name, second, c);
    Conservation(es, 1);
    RenamedLinks();
    FoundBehind(Record(second, 1, false, 0), Record(name, 2, false, 0));
    FoundBehind(Record(second, 0, false, 0), Record(name, 0, false, 0));
    FoundBehind(Record(second, 1, false, 0), Record(name, 0, false, 0));
    hide RegAfter, LogAfter, Add, ApplyEvent, LinkedTo, Renamed, Net, Notify, Find, Holders;
    var reg, linked := RegAfter(es), LinkedTo(LogAfter(es), 1);
    NotifyEffect(reg, linked, 0);
    RunKeeps(es, 0);
    var cleared := Notify(reg, linked);
    assert AtId(cleared, 0) == Record(name, 0, false, 0);
    NotifyEffect(reg, linked, 1);
    assert Registry.Death(reg, linked[0]).0 == [Record(second, 1, false, 0), Record(name, 0, false, 0)];
    assert AtId(cleared, 1) == Record(second, 0, false, 0);
    assert cleared == [Record(second, 0, false, 0), Record(name, 0, false, 0)];
  }

  lemma LinkedNext(c: Bc, rest: seq<Bc>, h: u32)
    ensures LinkedTo([c] + rest, h)
         == (if c.RequestDeath? && c.handle == h then [c.cookie] else []) + LinkedTo(rest, h)
  {
    assert ([c] + rest)[1..] == rest;
  }

  lemma RenamedLinks()
    ensures LinkedTo(Link(0, 1) + Link(1, 1) + ([Release(1)] + Link(0, 2)), 1) == [Cookie(0), Cookie(1)]
  {
    hide LinkedTo;
    var e: seq<Bc> := [];
    NoLinks(1);
    var l1 := [RequestDeath(2, Cookie(0))] + e;
    var l2 := [Acquire(2)] + l1;
    var l3 := [Release(1)] + l2;
    var l4 := [RequestDeath(1, Cookie(1))] + l3;
    var l5 := [Acquire(1)] + l4;
    var l6 := [RequestDeath(1, Cookie(0))] + l5;
    LinkedNext(RequestDeath(2, Cookie(0)), e, 1);
    LinkedNext(Acquire(2), l1, 1);
    LinkedNext(Release(1), l2, 1);
    LinkedNext(RequestDeath(1, Cookie(1)), l3, 1);
    LinkedNext(Acquire(1), l4, 1);
    LinkedNext(RequestDeath(1, Cookie(0)), l5, 1);
    LinkedNext(Acquire(1), l6, 1);
    assert [Acquire(1)] + l6 == Link(0, 1) + Link(1, 1) + ([Release(1)] + Link(0, 2));
  }

  lemma NoLinks(h: u32)
    ensures LinkedTo([], h) == []
  {
  }

  lemma FoundBehind(r: Record, q: Record)
    requires r.name != q.name
    ensures Find([r, q], q.name) == Some(0) && AtId([r, q], 0) == q
            && Holders([r, q], 1) == One(r.handle == 1) + One(q.handle == 1)
  {
    assert [r, q][1..] == [q] && [q][1..] == [];
    assert Holders([q], 1) == One(q.handle == 1);
    assert Find([q], q.name) == Some(0);
  }

  lemma RenamedRun(pol: Policy, name: Name, second: Name, c: Caller)
    requires pol.memory && 1 <= |name| <= MAX_NAME && 1 <= |second| <= MAX_NAME && name != second
    requires c.uid % 100000 < 10000 && (pol.mayAdd)(name, c) && (pol.mayAdd)(second, c)
    ensures var es := Renamed(pol, name, second, c);
            && RegAfter(es) == [Record(second, 1, false, 0), Record(name, 2, false, 0)]
            && LogAfter(es) == Link(0, 1) + Link(1, 1) + ([Release(1)] + Link(0, 2))
  {
    var r1, s1, r2 := Record(name, 1, false, 0), Record(second, 1, false, 0), Record(name, 2, false, 0);
    var es := Renamed(pol, name, second, c);
    var none: seq<Event> := [];
    ThreeInTurn(es);
    assert RegAfter(none) == [] && LogAfter(none) == [];
    FoundBehind(s1, r1);
    assert Find([r1], second).None?;
    assert [r1] + [] == [r1] && [s1] + [r1] == [s1, r1];
    assert ApplyEvent([], es[0]) == ([r1], Link(0, 1));
    assert ApplyEvent([r1], es[1]) == ([s1, r1], Link(1, 1));
    OverriddenIs([s1, r1], 0, 2);
    assert SetHandle([s1, r1], 0, 2) == [s1, r2];
    assert Find([s1, r1], name) == Some(0);
    assert ApplyEvent([s1, r1], es[2]) == ([s1, r2], [Release(1)] + Link(0, 2));
    assert [] + Link(0, 1) == Link(0, 1);
    OneMore(none, es[0]);
    OneMore(none + [es[0]], es[1]);
    OneMore(none + [es[0]] + [es[1]], es[2]);
  }

  lemma ThreeInTurn(es: seq<Event>)
    requires |es| == 3
    ensures [] + [es[0]] + [es[1]] + [es[2]] == es
  {
  }

  lemma OneMore(es: seq<Event>, e: Event)
    ensures RegAfter(es + [e]) == ApplyEvent(RegAfter(es), e).0
    ensures LogAfter(es + [e]) == LogAfter(es) + ApplyEvent(RegAfter(es), e).1
  {
    assert (es + [e])[..|es|] == es;
  }

  // ---------------------------------------------------------------------------------------
  // Enumeration
  // ---------------------------------------------------------------------------------------

  /** Whether two 32-bit masks share a set bit. */
  predicate SharesBit(a: nat, b: nat) {
    a > 0 && b > 0 && ((a % 2 == 1 && b % 2 == 1) || SharesBit(a / 2, b / 2))
  }

  predicate Bit(a: nat, k: nat) {
    if k == 0 then a % 2 == 1 else Bit(a / 2, k - 1)
  }

  predicate BothSet(a: nat, b: nat, k: nat) {
    Bit(a, k) && Bit(b, k)
  }

  /** The bitwise test: some bit is set in both. */
  lemma {:induction false} SharesBitMeaning(a: nat, b: nat)
    ensures SharesBit(a, b) <==> exists k: nat :: BothSet(a, b, k)
  {
    if SharesBit(a, b) {
      var j := SharedBit(a, b);
      assert BothSet(a, b, j);
    } else {
      forall k: nat ensures !BothSet(a, b, k) {
        if BothSet(a, b, k) { BitIsShared(a, b, k); }
      }
    }
  }

  lemma {:induction false} SharedBit(a: nat, b: nat) returns (k: nat)
    requires SharesBit(a, b)
    ensures Bit(a, k) && Bit(b, k)
  {
    if a % 2 == 1 && b % 2 == 1 {
      k := 0;
    } else {
      var j := SharedBit(a / 2, b / 2);
      k := j + 1;
    }
  }

  lemma {:induction false} BitIsShared(a: nat, b: nat, k: nat)
    requires Bit(a, k) && Bit(b, k)
    ensures SharesBit(a, b)
    decreases k
  {
    if a == 0 || b == 0 {
      NoBits(k);
    } else if k > 0 {
      BitIsShared(a / 2, b / 2, k - 1);
    }
  }

  lemma {:induction false} NoBits(k: nat)
    ensures !Bit(0, k)
  {
    if k > 0 { NoBits(k - 1); }
  }

  /** A record that a list request with mask req is to list: their masks share a set bit. */
  ghost predicate Matches(r: Record, req: u32) {
    exists k: nat :: BothSet(r.priority, req, k)
  }

  /** The walk of SVC_MGR_LIST_SERVICES: the id of the record where it stops, if any. */
  function Walk(reg: seq<Record>, n: nat, req: u32): (id: Option<nat>)
    ensures id.Some? ==> id.value < |reg|
  {
    if reg == [] then None
    else if SharesBit(reg[0].priority, req) then
      if n == 0 then Some(|reg| - 1) else Walk(reg[1..], n - 1, req)
    else Walk(reg[1..], n, req)
  }

  /** The ids of the records that match, newest first. */
  ghost function MatchIds(reg: seq<Record>, req: u32): seq<nat> {
    if reg == [] then []
    else (if Matches(reg[0], req) then [|reg| - 1] else []) + MatchIds(reg[1..], req)
  }

  /** They are the ids of matching records, in strictly descending order, so none twice. */
  lemma {:induction false} MatchIdsSound(reg: seq<Record>, req: u32, k: nat)
    requires k < |MatchIds(reg, req)|
    ensures MatchIds(reg, req)[k] < |reg| && Matches(AtId(reg, MatchIds(reg, req)[k]), req)
    ensures forall j :: 0 <= j < k ==> MatchIds(reg, req)[j] > MatchIds(reg, req)[k]
    decreases |reg|
  {
    hide Matches, BothSet;
    var ids, rest := MatchIds(reg, req), MatchIds(reg[1..], req);
    if Matches(reg[0], req) {
      if k > 0 {
        MatchIdsSound(reg[1..], req, k - 1);
        assert AtId(reg[1..], ids[k]) == AtId(reg, ids[k]);
        forall j | 0 <= j < k ensures ids[j] > ids[k] {
          if j > 0 { assert ids[j] == rest[j - 1]; }
        }
      }
    } else {
      assert ids == rest;
      MatchIdsSound(reg[1..], req, k);
      assert AtId(reg[1..], ids[k]) == AtId(reg, ids[k]);
    }
  }

  /** They are all of them. */
  lemma {:induction false} MatchIdsComplete(reg: seq<Record>, req: u32, id: nat) returns (k: nat)
    requires id < |reg| && Matches(AtId(reg, id), req)
    ensures k < |MatchIds(reg, req)| && MatchIds(reg, req)[k] == id
    decreases |reg|
  {
    if id == |reg| - 1 {
      k := 0;
    } else {
      assert AtId(reg[1..], id) == AtId(reg, id);
      k := MatchIdsComplete(reg[1..], req, id);
      if Matches(reg[0], req) { k := k + 1; }
    }
  }

  /** They are the records whose mask has a bit set that is set in the request's mask too. */
  lemma MatchIdsExactly(reg: seq<Record>, req: u32, id: nat)
    ensures id in MatchIds(reg, req) <==> id < |reg| && exists k: nat :: BothSet(AtId(reg, id).priority, req, k)
  {
    if id in MatchIds(reg, req) {
      var k :| 0 <= k < |MatchIds(reg, req)| && MatchIds(reg, req)[k] == id;
      MatchIdsSound(reg, req, k);
    } else if id < |reg| && Matches(AtId(reg, id), req) {
      var k := MatchIdsComplete(reg, req, id);
      assert false;
    }
  }

  lemma {:induction false} WalkIsNth(reg: seq<Record>, n: nat, req: u32)
    ensures Walk(reg, n, req) == if n < |MatchIds(reg, req)| then Some(MatchIds(reg, req)[n]) else None
    decreases |reg|
  {
    if reg != [] {
      SharesBitMeaning(reg[0].priority, req);
      WalkIsNth(reg[1..], if Matches(reg[0], req) && n > 0 then n - 1 else n, req);
    }
  }

  lemma {:induction false} SameMatches(before: seq<Record>, after: seq<Record>, req: u32)
    requires Grown(before, after) && |before| == |after|
    ensures MatchIds(before, req) == MatchIds(after, req)
  {
    if after != [] {
      hide SharesBit, BothSet;
      assert AtId(before, |before| - 1) == before[0] && AtId(after, |after| - 1) == after[0];
      GrownTail(before[1..], before, after[1..], after);
      SameMatches(before[1..], after[1..], req);
    }
  }

  lemma GrownTail(b: seq<Record>, before: seq<Record>, a: seq<Record>, after: seq<Record>)
    requires Grown(before, after) && |b| <= |a|
    requires |b| <= |before| && b == before[|before| - |b|..] && |a| <= |after| && a == after[|after| - |a|..]
    ensures Grown(b, a)
  {
    forall k | 0 <= k < |b| ensures AtId(a, k) == AtId(after, k) && AtId(b, k) == AtId(before, k) {
    }
  }

  /** When the list grows the matches of the old list stay, at the end of the new matches. */
  lemma {:induction false} GrownMatches(before: seq<Record>, after: seq<Record>, req: u32)
    requires Grown(before, after)
    ensures |MatchIds(before, req)| <= |MatchIds(after, req)|
    ensures Suffix(MatchIds(after, req), |MatchIds(before, req)|) == MatchIds(before, req)
    decreases |after|
  {
    if |before| < |after| {
      GrownTail(before, before, after[1..], after);
      GrownMatches(before, after[1..], req);
      SuffixOfSuffix(MatchIds(after, req), MatchIds(after[1..], req), |MatchIds(before, req)|);
    } else {
      SameMatches(before, after, req);
    }
  }

  function Suffix(s: seq<nat>, n: nat): seq<nat>
    requires n <= |s|
  {
    s[|s| - n..]
  }

  lemma SuffixOfSuffix(s: seq<nat>, t: seq<nat>, n: nat)
    requires n <= |t| <= |s| && Suffix(s, |t|) == t
    ensures Suffix(s, n) == Suffix(t, n)
  {
  }

  /** A client's enumeration: query n meets the list regs[n], which may have grown since the
      query before; all are answered but the last, which is told there are no more. */
  ghost predicate Enumerates(regs: seq<seq<Record>>, req: u32) {
    && |regs| > 0
    && (forall n :: 0 <= n < |regs| - 1 ==> Grown(regs[n], regs[n + 1]))
    && (forall n :: 0 <= n < |regs| - 1 ==> Walk(regs[n], n, req).Some?)
    && Walk(regs[|regs| - 1], |regs| - 1, req).None?
  }

  lemma {:induction false} GrownFromStart(regs: seq<seq<Record>>, n: nat)
    requires n < |regs| && forall k :: 0 <= k < |regs| - 1 ==> Grown(regs[k], regs[k + 1])
    ensures Grown(regs[0], regs[n])
  {
    if n > 0 {
      GrownFromStart(regs, n - 1);
      GrownTransitive(regs[0], regs[n - 1], regs[n]);
    }
  }

  /** Enumeration under concurrent registration: the client is told the end only after every
      matching record present at the start has been returned to it. */
  lemma EnumerationComplete(regs: seq<seq<Record>>, req: u32, id: nat) returns (n: nat)
    requires Enumerates(regs, req) && id < |regs[0]| && Matches(AtId(regs[0], id), req)
    ensures n < |regs| - 1 && Walk(regs[n], n, req) == Some(id)
  {
    var m := MatchIds(regs[0], req);
    var i := MatchIdsComplete(regs[0], req, id);
    WalkIsNth(regs[|regs| - 1], |regs| - 1, req);
    n := Crossing(regs, req, |m| - 1 - i, 0);
    WalkIsNth(regs[n], n, req);
    GrownFromStart(regs, n);
    GrownMatches(regs[0], regs[n], req);
    var m' := MatchIds(regs[n], req);
    assert Suffix(m', |m|)[i] == m'[n];
  }

  /** Counted from the tail, query n asks for match |matches| - 1 - n. That number starts at or
      above any old match and sinks by at most one a query, so it meets it. */
  lemma {:induction false} Crossing(regs: seq<seq<Record>>, req: u32, t: nat, n: nat) returns (at: nat)
    requires Enumerates(regs, req) && n < |regs|
    requires |MatchIds(regs[|regs| - 1], req)| <= |regs| - 1
    requires |MatchIds(regs[n], req)| - 1 - n >= t
    ensures at < |regs| - 1 && |MatchIds(regs[at], req)| - 1 - at == t
    decreases |regs| - n
  {
    if |MatchIds(regs[n], req)| - 1 - n == t {
      at := n;
    } else {
      GrownMatches(regs[n], regs[n + 1], req);
      at := Crossing(regs, req, t, n + 1);
    }
  }

  /** With no registration in between, the answers are exactly the matching records, each once,
      newest first. */
  lemma EnumerationExact(reg: seq<Record>, regs: seq<seq<Record>>, req: u32)
    requires Enumerates(regs, req) && forall n :: 0 <= n < |regs| ==> regs[n] == reg
    ensures |regs| - 1 == |MatchIds(reg, req)|
    ensures forall n :: 0 <= n < |regs| - 1 ==> Walk(regs[n], n, req) == Some(MatchIds(reg, req)[n])
  {
    forall n | 0 <= n < |regs|
      ensures Walk(reg, n, req) == if n < |MatchIds(reg, req)| then Some(MatchIds(reg, req)[n]) else None
    {
      WalkIsNth(reg, n, req);
    }
    if |regs| > 1 {
      assert Walk(regs[|regs| - 2], |regs| - 2, req).Some?;
    }
  }
}
