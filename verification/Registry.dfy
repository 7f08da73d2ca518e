/** The service registry on values: a list of records, newest first, with the operations of
    service_manager.c and what every run of them keeps. */
module Registry {
  import opened Words
  import opened Commands

  type Name = seq<u16>

  /** struct svcinfo without its links. */
  datatype Record = Record(name: Name, handle: u32, allowIsolated: bool, priority: u32)

  datatype Caller = Caller(uid: u32, pid: u32, sid: u64)

  /** The SELinux decisions and the memory allocator, left arbitrary. */
  datatype Policy = Policy(mayAdd: (Name, Caller) -> bool, mayFind: (Name, Caller) -> bool,
                           mayList: Caller -> bool, memory: bool)

  const AID_APP: nat := 10000
  const AID_USER: nat := 100000
  const AID_ISOLATED_START: nat := 99000
  const AID_ISOLATED_END: nat := 99999
  const MAX_NAME: nat := 127

  predicate CanRegister(pol: Policy, name: Name, c: Caller) {
    c.uid % AID_USER < AID_APP && (pol.mayAdd)(name, c)
  }

  predicate Isolated(c: Caller) {
    AID_ISOLATED_START <= c.uid % AID_USER <= AID_ISOLATED_END
  }

  /** A record is known to the driver by an address; here by its number in order of creation,
      which never changes because records are only added at the head and never removed. */
  function AtId(reg: seq<Record>, id: nat): Record
    requires id < |reg|
  {
    reg[|reg| - 1 - id]
  }

  function Cookie(id: nat): u64 {
    id % TWO64
  }

  lemma CookieIsId(id: nat)
    requires id < TWO64
    ensures Cookie(id) == id
  {
  }

  /** find_svc: the id of the first record with the name. */
  function Find(reg: seq<Record>, name: Name): (id: Option<nat>)
    ensures id.Some? ==> id.value < |reg| && AtId(reg, id.value).name == name
    ensures id.None? ==> forall r | r in reg :: r.name != name
  {
    if reg == [] then None
    else if reg[0].name == name then Some(|reg| - 1)
    else Find(reg[1..], name)
  }

  function SetHandle(reg: seq<Record>, id: nat, handle: u32): (r: seq<Record>)
    requires id < |reg|
    ensures |r| == |reg| && AtId(r, id) == AtId(reg, id).(handle := handle)
    ensures forall k :: 0 <= k < |reg| && k != id ==> AtId(r, k) == AtId(reg, k)
  {
    reg[|reg| - 1 - id := AtId(reg, id).(handle := handle)]
  }

  /** svcinfo_death, on the record whose address the driver passes back. */
  function Death(reg: seq<Record>, cookie: u64): (r: (seq<Record>, seq<Bc>))
    ensures |r.0| == |reg|
  {
    if cookie < |reg| && AtId(reg, cookie).handle != 0 then
      (SetHandle(reg, cookie, 0), [Release(AtId(reg, cookie).handle)])
    else (reg, [])
  }

  datatype Added = Added(reg: seq<Record>, log: seq<Bc>, status: int)

  /** The arguments of do_add_service. */
  datatype AddArgs = AddArgs(name: Name, handle: u32, caller: Caller, allowIsolated: bool, priority: u32)

  /** When do_add_service is to accept: a nonzero handle, a name of 1 to 127 units, a caller that is
      not an app (its id within the user is below 10000) and whom the security policy lets add
      the name, and a record for the name or room for one. */
  predicate Accepts(pol: Policy, reg: seq<Record>, a: AddArgs) {
    && a.handle != 0 && 1 <= |a.name| <= 127
    && a.caller.uid % 100000 < 10000 && (pol.mayAdd)(a.name, a.caller)
    && (Find(reg, a.name).Some? || (pol.memory && |reg| < TWO64))
  }

  function Link(id: nat, handle: u32): seq<Bc> {
    [Acquire(handle), RequestDeath(handle, Cookie(id))]
  }

  /** An existing record takes a handle: a live old one is given up first, as on a death. */
  function Overridden(reg: seq<Record>, id: nat, handle: u32): (seq<Record>, seq<Bc>)
    requires id < |reg|
  {
    var (r, l) := if AtId(reg, id).handle != 0 then Death(reg, Cookie(id)) else (reg, []);
    (SetHandle(r, id, handle), l + Link(id, handle))
  }

  /** do_add_service: an override releases the old handle, then both paths acquire the new one
      and ask for its death. */
  function Add(pol: Policy, reg: seq<Record>, a: AddArgs): Added {
    if a.handle == 0 || |a.name| == 0 || |a.name| > MAX_NAME then Added(reg, [], -1)
    else if !CanRegister(pol, a.name, a.caller) then Added(reg, [], -1)
    else
      var id := Find(reg, a.name);
      if id.Some? then
        var (r, l) := Overridden(reg, id.value, a.handle);
        Added(r, l, 0)
      else if !(pol.memory && |reg| < TWO64) then Added(reg, [], -1)
      else
        Added([Record(a.name, a.handle, a.allowIsolated, a.priority)] + reg, Link(|reg|, a.handle), 0)
  }

  /** do_find_service. */
  function FindService(pol: Policy, reg: seq<Record>, name: Name, c: Caller): u32 {
    var id := Find(reg, name);
    if id.None? || AtId(reg, id.value).handle == 0 then 0
    else if !AtId(reg, id.value).allowIsolated && Isolated(c) then 0
    else if !(pol.mayFind)(name, c) then 0
    else AtId(reg, id.value).handle
  }

  /** A record of a list without duplicates is the one found under its name. */
  lemma RecordFound(reg: seq<Record>, r: Record)
    requires WellFormedReg(reg) && r in reg
    ensures Find(reg, r.name).Some? && AtId(reg, Find(reg, r.name).value) == r
  {
    var k :| 0 <= k < |reg| && reg[k] == r;
    assert AtId(reg, |reg| - 1 - k) == r;
    FindUnique(reg, r.name, |reg| - 1 - k);
  }

  /** do_find_service on a name that has a record: its handle, unless the policy forbids or the
      record does not allow isolated callers and the caller is one, an id from 99000 to 99999
      within its user; and 0 on a name that has none. */
  lemma FoundExactly(pol: Policy, reg: seq<Record>, name: Name, c: Caller)
    requires WellFormedReg(reg)
    ensures forall r | r in reg && r.name == name ::
              FindService(pol, reg, name, c)
              == if (pol.mayFind)(name, c) && (r.allowIsolated || !(99000 <= c.uid % 100000 <= 99999)) then r.handle
                 else 0
    ensures (forall r | r in reg :: r.name != name) ==> FindService(pol, reg, name, c) == 0
  {
    forall r | r in reg && r.name == name ensures Find(reg, name).Some? && AtId(reg, Find(reg, name).value) == r {
      RecordFound(reg, r);
    }
  }

  /** The status of do_add_service: 0 exactly for a nonzero handle, a name of 1 to 127 units, a
      caller whose id within its user is below 10000 and whom the policy lets add the name, when
      the name has a record or there is room for one; otherwise -1, and nothing happens. */
  lemma AddedExactly(pol: Policy, reg: seq<Record>, a: AddArgs)
    ensures var r := Add(pol, reg, a);
            && (r.status == 0 <==>
                  && a.handle != 0 && 1 <= |a.name| <= 127
                  && a.caller.uid % 100000 < 10000 && (pol.mayAdd)(a.name, a.caller)
                  && ((exists r | r in reg :: r.name == a.name) || (pol.memory && |reg| < TWO64)))
            && (r.status != 0 ==> r == Added(reg, [], -1))
  {
    if Find(reg, a.name).Some? {
      assert AtId(reg, Find(reg, a.name).value) in reg;
    }
  }

  // ---------------------------------------------------------------------------------------
  // What every operation keeps
  // ---------------------------------------------------------------------------------------

  /** No two records share a name, every length is in range, every id fits an address. */
  ghost predicate WellFormedReg(reg: seq<Record>) {
    && |reg| <= TWO64
    && (forall k :: 0 <= k < |reg| ==> 1 <= |reg[k].name| <= MAX_NAME)
    && (forall j, k :: 0 <= j < k < |reg| ==> reg[j].name != reg[k].name)
  }

  /** Every record of the old list is a record of the new one under the same id, with the same
      name, isolation flag and priority: the old list is a suffix but for the handles. */
  ghost predicate Grown(before: seq<Record>, after: seq<Record>) {
    && |before| <= |after|
    && forall k :: 0 <= k < |before| ==> AtId(after, k) == AtId(before, k).(handle := AtId(after, k).handle)
  }

  lemma GrownTransitive(a: seq<Record>, b: seq<Record>, c: seq<Record>)
    requires Grown(a, b) && Grown(b, c)
    ensures Grown(a, c)
  {
  }

  datatype Event = AddEvent(pol: Policy, args: AddArgs) | DeathEvent(cookie: u64)

  predicate Accepted(reg: seq<Record>, e: Event) {
    e.AddEvent? && Accepts(e.pol, reg, e.args)
  }

  function ApplyEvent(reg: seq<Record>, e: Event): (seq<Record>, seq<Bc>) {
    match e
    case AddEvent(pol, a) => var r := Add(pol, reg, a); (r.reg, r.log)
    case DeathEvent(k) => Death(reg, k)
  }

  /** The registry and the commands written after a list of events, from the empty registry. */
  function RegAfter(es: seq<Event>): seq<Record> {
    if es == [] then [] else ApplyEvent(RegAfter(es[..|es| - 1]), es[|es| - 1]).0
  }

  function LogAfter(es: seq<Event>): seq<Bc> {
    if es == [] then [] else LogAfter(es[..|es| - 1]) + ApplyEvent(RegAfter(es[..|es| - 1]), es[|es| - 1]).1
  }

  lemma SetHandleKeeps(reg: seq<Record>, id: nat, handle: u32)
    requires WellFormedReg(reg) && id < |reg|
    ensures WellFormedReg(SetHandle(reg, id, handle)) && Grown(reg, SetHandle(reg, id, handle))
    ensures Find(SetHandle(reg, id, handle), AtId(reg, id).name) == Some(id)
  {
    var after := SetHandle(reg, id, handle);
    forall k | 0 <= k < |reg| ensures after[k].name == reg[k].name {
      assert after[k] == AtId(after, |reg| - 1 - k);
      assert reg[k] == AtId(reg, |reg| - 1 - k);
    }
    FindUnique(after, AtId(reg, id).name, id);
  }

  lemma NewRecordKeeps(reg: seq<Record>, r: Record)
    requires WellFormedReg(reg) && |reg| < TWO64 && Find(reg, r.name).None? && 1 <= |r.name| <= MAX_NAME
    ensures WellFormedReg([r] + reg) && Grown(reg, [r] + reg)
    ensures Find([r] + reg, r.name) == Some(|reg|) && AtId([r] + reg, |reg|) == r
  {
    FoundAtHead(r, reg);
    GrownByOne(reg, r);
    hide Find, Grown;
    forall k | 0 <= k < |reg| ensures reg[k].name != r.name {
      assert reg[k] in reg;
    }
    DistinctByOne(r, reg);
  }

  lemma DistinctByOne(r: Record, reg: seq<Record>)
    requires WellFormedReg(reg) && |reg| < TWO64 && 1 <= |r.name| <= MAX_NAME
    requires forall k :: 0 <= k < |reg| ==> reg[k].name != r.name
    ensures WellFormedReg([r] + reg)
  {
    var after := [r] + reg;
    assert after[0] == r && forall k :: 0 < k < |after| ==> after[k] == reg[k - 1];
  }

  lemma GrownByOne(reg: seq<Record>, r: Record)
    ensures Grown(reg, [r] + reg)
  {
  }

  lemma FoundAtHead(r: Record, reg: seq<Record>)
    ensures Find([r] + reg, r.name) == Some(|reg|)
  {
  }

  /** Where an accepted registration goes: to the record of its name, or to a new one. */
  function Target(reg: seq<Record>, a: AddArgs): nat {
    var id := Find(reg, a.name);
    if id.Some? then id.value else |reg|
  }

  /** The registry after an event, said without the code: an accepted add gives its name its
      handle, in a new record if there was none; a death zeroes the record of its cookie;
      everything else leaves every record alone. */
  function Effect(reg: seq<Record>, e: Event): seq<Record> {
    if Accepted(reg, e) then
      var id := Target(reg, e.args);
      if id < |reg| then SetHandle(reg, id, e.args.handle)
      else [Record(e.args.name, e.args.handle, e.args.allowIsolated, e.args.priority)] + reg
    else if e.DeathEvent? && e.cookie < |reg| then SetHandle(reg, e.cookie, 0)
    else reg
  }

  lemma OverriddenIs(reg: seq<Record>, id: nat, handle: u32)
    requires id < |reg| <= TWO64
    ensures Overridden(reg, id, handle).0 == SetHandle(reg, id, handle)
    ensures Overridden(reg, id, handle).1
         == (if AtId(reg, id).handle != 0 then [Release(AtId(reg, id).handle)] else []) + Link(id, handle)
  {
    CookieIsId(id);
    assert SetHandle(SetHandle(reg, id, 0), id, handle) == SetHandle(reg, id, handle);
  }

  /** What an event writes: for an accepted add, the release of the live handle it replaces if
      there is one, the acquire of the new one, and the request for its death with the record's
      address; for a death, the release of the handle, if the record was live. */
  lemma EventWrites(reg: seq<Record>, e: Event)
    requires WellFormedReg(reg)
    ensures Accepted(reg, e) ==>
              var id, h := Target(reg, e.args), e.args.handle;
              && id < TWO64
              && ApplyEvent(reg, e).1
              == (if id < |reg| && AtId(reg, id).handle != 0 then [Release(AtId(reg, id).handle)] else [])
                 + [Acquire(h), RequestDeath(h, id)]
    ensures e.AddEvent? && !Accepted(reg, e) ==> ApplyEvent(reg, e).1 == []
    ensures e.DeathEvent? ==>
              ApplyEvent(reg, e).1
              == if e.cookie < |reg| && AtId(reg, e.cookie).handle != 0 then [Release(AtId(reg, e.cookie).handle)]
                 else []
  {
    if Accepted(reg, e) {
      var id := Target(reg, e.args);
      CookieIsId(id);
      hide Find;
      if id < |reg| { OverriddenIs(reg, id, e.args.handle); }
    }
  }

  lemma EventIsEffect(reg: seq<Record>, e: Event)
    requires WellFormedReg(reg)
    ensures ApplyEvent(reg, e).0 == Effect(reg, e)
    ensures e.AddEvent? ==> (Add(e.pol, reg, e.args).status == 0 <==> Accepted(reg, e))
    ensures e.AddEvent? && !Accepted(reg, e) ==> ApplyEvent(reg, e).1 == []
  {
    match e
    case AddEvent(pol, a) =>
      if Accepted(reg, e) && Find(reg, a.name).Some? {
        OverriddenIs(reg, Find(reg, a.name).value, a.handle);
      }
    case DeathEvent(k) =>
      if k < |reg| && AtId(reg, k).handle == 0 {
        assert SetHandle(reg, k, 0) == reg;
      }
  }

  lemma EventKeeps(reg: seq<Record>, e: Event)
    requires WellFormedReg(reg)
    ensures var after := ApplyEvent(reg, e).0;
            && WellFormedReg(after) && Grown(reg, after)
            && (Accepted(reg, e) ==>
                  && Find(after, e.args.name) == Some(Target(reg, e.args))
                  && AtId(after, Target(reg, e.args)).handle == e.args.handle)
  {
    EventIsEffect(reg, e);
    if Accepted(reg, e) {
      if Find(reg, e.args.name).Some? {
        SetHandleKeeps(reg, Target(reg, e.args), e.args.handle);
      } else {
        NewRecordKeeps(reg, Record(e.args.name, e.args.handle, e.args.allowIsolated, e.args.priority));
      }
    } else if e.DeathEvent? && e.cookie < |reg| {
      SetHandleKeeps(reg, e.cookie, 0);
    }
  }

  /** find_svc is lookup by name: the record found is the one record with that name. */
  lemma {:induction false} FindUnique(reg: seq<Record>, name: Name, id: nat)
    requires forall j, k :: 0 <= j < k < |reg| ==> reg[j].name != reg[k].name
    requires id < |reg| && AtId(reg, id).name == name
    ensures Find(reg, name) == Some(id)
    decreases |reg|
  {
    if reg[0].name != name {
      assert reg[1..][|reg| - 2 - id] == reg[|reg| - 1 - id];
      FindUnique(reg[1..], name, id);
    }
  }

  /** The registry as a map from names, newest first. */
  ghost function Directory(reg: seq<Record>): map<Name, Record> {
    if reg == [] then map[] else Directory(reg[1..])[reg[0].name := reg[0]]
  }

  /** find_svc equals lookup in the map. */
  lemma {:induction false} FindIsLookup(reg: seq<Record>, name: Name)
    ensures Find(reg, name).Some? <==> name in Directory(reg)
    ensures Find(reg, name).Some? ==> Directory(reg)[name] == AtId(reg, Find(reg, name).value)
    decreases |reg|
  {
    if reg != [] && reg[0].name != name {
      FindIsLookup(reg[1..], name);
      if Find(reg, name).Some? {
        assert AtId(reg[1..], Find(reg, name).value) == AtId(reg, Find(reg, name).value);
      }
    }
  }

  /** Over every run: the representation invariant, and growth from every earlier point. */
  lemma {:induction false} RunKeeps(es: seq<Event>, k: nat)
    requires k <= |es|
    ensures WellFormedReg(RegAfter(es)) && Grown(RegAfter(es[..k]), RegAfter(es))
    decreases |es|
  {
    if k == |es| {
      assert es[..k] == es;
      if es != [] {
        RunKeeps(es[..|es| - 1], 0);
        EventKeeps(RegAfter(es[..|es| - 1]), es[|es| - 1]);
      }
    } else {
      var n := |es| - 1;
      RunKeeps(es[..n], k);
      assert es[..n][..k] == es[..k];
      EventKeeps(RegAfter(es[..n]), es[n]);
      GrownTransitive(RegAfter(es[..k]), RegAfter(es[..n]), RegAfter(es));
    }
  }

  // ---------------------------------------------------------------------------------------
  // The history of a record
  // ---------------------------------------------------------------------------------------

  /** Event k of the run was an accepted registration of the name. */
  predicate Registers(es: seq<Event>, k: nat, name: Name)
    requires k < |es|
  {
    Accepted(RegAfter(es[..k]), es[k]) && es[k].args.name == name
  }

  /** k is the first accepted registration of the name in the run. */
  ghost predicate First(es: seq<Event>, k: nat, name: Name) {
    k < |es| && Registers(es, k, name) && forall j :: 0 <= j < k ==> !Registers(es, j, name)
  }

  /** k is the last accepted registration of the name in the run. */
  ghost predicate Last(es: seq<Event>, k: nat, name: Name) {
    k < |es| && Registers(es, k, name) && forall j :: k < j < |es| ==> !Registers(es, j, name)
  }

  /** A death event carrying the id comes after event k. */
  ghost predicate DiesAfter(es: seq<Event>, k: nat, id: nat) {
    exists j :: k < j < |es| && es[j] == DeathEvent(Cookie(id))
  }

  /** What the history says of a record: its place, its flag and priority from the first
      registration, its handle from the last one unless the record died later. */
  ghost predicate AsHistorySays(es: seq<Event>, name: Name, first: nat, last: nat)
    requires first < |es| && es[first].AddEvent? && last < |es| && es[last].AddEvent?
  {
    var reg, id := RegAfter(es), |RegAfter(es[..first])|;
    && Find(reg, name) == Some(id)
    && AtId(reg, id).allowIsolated == es[first].args.allowIsolated
    && AtId(reg, id).priority == es[first].args.priority
    && AtId(reg, id).handle == (if DiesAfter(es, last, id) then 0 else es[last].args.handle)
  }

  /** The history characterisation of a record, over every run: isolation flag and priority are
      those of the first accepted registration, for ever; the handle is that of the last one,
      or 0 exactly when a death carrying the record's cookie came later, whichever handle that
      death was for. */
  lemma {:induction false} RecordHistory(es: seq<Event>, name: Name, first: nat, last: nat)
    requires First(es, first, name) && Last(es, last, name)
    ensures AsHistorySays(es, name, first, last)
    decreases |es|
  {
    hide RegAfter, ApplyEvent, Accepts, AsHistorySays;
    var n := |es| - 1;
    assert es[..n][..first] == es[..first];
    PrefixRegisters(es, n, name);
    if first == n {
      HistoryStarts(es, name);
    } else if last == n {
      var prev := PreviousRegistration(es, n, name);
      assert First(es[..n], first, name);
      RecordHistory(es[..n], name, first, prev);
      HistoryRenews(es, name, first, prev);
    } else {
      assert First(es[..n], first, name) && Last(es[..n], last, name);
      RecordHistory(es[..n], name, first, last);
      HistoryGoesOn(es, name, first, last);
    }
  }

  lemma HistoryStarts(es: seq<Event>, name: Name)
    requires es != [] && First(es, |es| - 1, name)
    ensures AsHistorySays(es, name, |es| - 1, |es| - 1)
  {
    var n := |es| - 1;
    PrefixRegisters(es, n, name);
    NeverRegistered(es[..n], name);
    RunKeeps(es[..n], 0);
    EventKeeps(RegAfter(es[..n]), es[n]);
    EventIsEffect(RegAfter(es[..n]), es[n]);
  }

  lemma HistoryRenews(es: seq<Event>, name: Name, first: nat, prev: nat)
    requires es != [] && first < |es| - 1 && prev < |es| - 1 && Registers(es, |es| - 1, name)
    requires es[first].AddEvent? && es[prev].AddEvent? && AsHistorySays(es[..|es| - 1], name, first, prev)
    ensures AsHistorySays(es, name, first, |es| - 1)
  {
    hide ApplyEvent, Find, Accepts;
    var n := |es| - 1;
    assert es[..n][..first] == es[..first];
    RunKeeps(es[..n], 0);
    Renews(RegAfter(es[..n]), es[n], |RegAfter(es[..first])|);
  }

  lemma Renews(reg: seq<Record>, e: Event, id: nat)
    requires WellFormedReg(reg) && Accepted(reg, e) && Find(reg, e.args.name) == Some(id)
    ensures var after := ApplyEvent(reg, e).0;
            Find(after, e.args.name) == Some(id) && AtId(after, id) == AtId(reg, id).(handle := e.args.handle)
  {
    EventKeeps(reg, e);
    EventIsEffect(reg, e);
  }

  lemma HistoryGoesOn(es: seq<Event>, name: Name, first: nat, last: nat)
    requires es != [] && first < |es| - 1 && last < |es| - 1 && !Registers(es, |es| - 1, name)
    requires es[first].AddEvent? && es[last].AddEvent? && AsHistorySays(es[..|es| - 1], name, first, last)
    ensures AsHistorySays(es, name, first, last)
  {
    hide ApplyEvent, Find, Accepts;
    var n := |es| - 1;
    var id := |RegAfter(es[..first])|;
    assert es[..n][..first] == es[..first];
    RunKeeps(es[..n], 0);
    SurvivesEvent(RegAfter(es[..n]), es[n], name, id);
    LaterDeath(es, n, last, id);
  }

  lemma LaterDeath(es: seq<Event>, n: nat, last: nat, id: nat)
    requires n == |es| - 1 && last < n
    ensures DiesAfter(es, last, id) <==> DiesAfter(es[..n], last, id) || es[n] == DeathEvent(Cookie(id))
  {
    if DiesAfter(es, last, id) {
      var j :| last < j < |es| && es[j] == DeathEvent(Cookie(id));
      if j < n { assert es[..n][j] == es[j]; }
    }
    if DiesAfter(es[..n], last, id) {
      var j :| last < j < n && es[..n][j] == DeathEvent(Cookie(id));
      assert es[j] == DeathEvent(Cookie(id));
    }
  }

  /** An event that does not register the name leaves its record's place, flag and priority,
      and its handle too unless it is the death of that record. */
  lemma SurvivesEvent(reg: seq<Record>, e: Event, name: Name, id: nat)
    requires WellFormedReg(reg) && Find(reg, name) == Some(id)
    requires !(Accepted(reg, e) && e.args.name == name)
    ensures var after := ApplyEvent(reg, e).0;
            && Find(after, name) == Some(id)
            && AtId(after, id) == if e == DeathEvent(Cookie(id)) then AtId(reg, id).(handle := 0) else AtId(reg, id)
  {
    EventKeeps(reg, e);
    RecordSurvives(reg, e, name, id);
    hide ApplyEvent, Accepts, Find, Accepted;
    FindUnique(ApplyEvent(reg, e).0, name, id);
  }

  lemma RecordSurvives(reg: seq<Record>, e: Event, name: Name, id: nat)
    requires WellFormedReg(reg) && Find(reg, name) == Some(id)
    requires !(Accepted(reg, e) && e.args.name == name)
    ensures var after := ApplyEvent(reg, e).0;
            && id < |after|
            && AtId(after, id) == if e == DeathEvent(Cookie(id)) then AtId(reg, id).(handle := 0) else AtId(reg, id)
  {
    EventIsEffect(reg, e);
    CookieIsId(id);
    assert Accepted(reg, e) ==> Target(reg, e.args) != id;
    hide ApplyEvent, Accepts, Find, WellFormedReg;
    if Accepted(reg, e) && Target(reg, e.args) >= |reg| {
      AtIdBehind(Record(e.args.name, e.args.handle, e.args.allowIsolated, e.args.priority), reg, id);
    }
  }

  lemma AtIdBehind(r: Record, reg: seq<Record>, id: nat)
    requires id < |reg|
    ensures AtId([r] + reg, id) == AtId(reg, id)
  {
  }

  lemma PrefixRegisters(es: seq<Event>, n: nat, name: Name)
    requires n <= |es|
    ensures forall k :: 0 <= k < n ==> (Registers(es[..n], k, name) <==> Registers(es, k, name))
  {
    forall k | 0 <= k < n ensures Registers(es[..n], k, name) <==> Registers(es, k, name) {
      assert es[..n][..k] == es[..k];
    }
  }

  /** The last registration of the name before event n. */
  lemma {:induction false} PreviousRegistration(es: seq<Event>, n: nat, name: Name) returns (prev: nat)
    requires n <= |es| && exists k :: 0 <= k < n && Registers(es, k, name)
    ensures Last(es[..n], prev, name)
    decreases n
  {
    hide Registers;
    PrefixRegisters(es, n, name);
    if Registers(es, n - 1, name) {
      prev := n - 1;
    } else {
      prev := PreviousRegistration(es, n - 1, name);
      PrefixRegisters(es, n - 1, name);
      assert Registers(es, prev, name);
      forall j | prev < j < n ensures !Registers(es[..n], j, name) {
        if j < n - 1 { assert !Registers(es[..n - 1], j, name); }
      }
    }
  }

  /** A name with no accepted registration has no record. */
  lemma {:induction false} NeverRegistered(es: seq<Event>, name: Name)
    requires forall k :: 0 <= k < |es| ==> !Registers(es, k, name)
    ensures Find(RegAfter(es), name).None?
    decreases |es|
  {
    if es != [] {
      var n := |es| - 1;
      PrefixRegisters(es, n, name);
      assert forall k :: 0 <= k < n ==> !Registers(es, k, name);
      NeverRegistered(es[..n], name);
      RunKeeps(es[..n], 0);
      assert !Registers(es, n, name);
      StaysUnknown(RegAfter(es[..n]), es[n], name);
    }
  }

  lemma StaysUnknown(reg: seq<Record>, e: Event, name: Name)
    requires WellFormedReg(reg) && Find(reg, name).None? && !(Accepted(reg, e) && e.args.name == name)
    ensures Find(ApplyEvent(reg, e).0, name).None?
  {
    EventIsEffect(reg, e);
    var after := ApplyEvent(reg, e).0;
    forall k | 0 <= k < |after| ensures AtId(after, k).name != name {
      if k < |reg| { assert AtId(reg, k) in reg; }
    }
    assert Find(after, name).None?;
  }
}
