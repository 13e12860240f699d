/** Value-level specification of the stochastic address manager (src/addrman.cpp).

    A State holds the five mutually redundant indexes and the two counters.  A table is
    a map from the occupied slots to ids.  Random draws and the clock are arguments. */
module AddrManSpec {

  const NEW_BUCKETS: nat := 1024
  const TRIED_BUCKETS: nat := 256
  const BUCKET_SIZE: nat := 64
  const NEW_BUCKETS_PER_ADDRESS: int := 8
  const HORIZON: int := 30 * 24 * 60 * 60
  const RETRIES: int := 3
  const MAX_FAILURES: int := 10
  const MIN_FAIL: int := 7 * 24 * 60 * 60
  const GETADDR_MAX_PCT: int := 23
  const GETADDR_MAX: int := 2500

  datatype NetAddr = NetAddr(ip: nat)
  datatype Service = Service(addr: NetAddr, port: nat)
  datatype Address = Address(service: Service, services: bv64, time: int)
  /** The nId of an entry; NO_ID marks an empty slot. */
  datatype Id = Id(n: int)
  const NO_ID: Id := Id(-1)
  datatype Slot = Slot(bucket: nat, pos: nat)

  datatype Info = Info(
    service: Service, services: bv64, time: int, source: NetAddr,
    lastTry: int, lastCountAttempt: int, lastSuccess: int, attempts: int,
    refCount: int, inTried: bool, randomPos: int)
  {
    /** Whether the statistics are bad enough for the entry to be dropped. */
    predicate IsTerrible(now: int) {
      if lastTry != 0 && lastTry >= now - 60 then false
      else
        || time > now + 10 * 60
        || time == 0 || now - time > HORIZON
        || (lastSuccess == 0 && attempts >= RETRIES)
        || (now - lastSuccess > MIN_FAIL && attempts >= MAX_FAILURES)
    }

    function ToAddress(): Address { Address(service, services, time) }
  }

  /** The keyed hashes, uninterpreted.  Only their reduction to table ranges matters. */
  datatype Hasher = Hasher(tried: Service -> nat, primary: (Service, NetAddr) -> nat,
                           position: (bool, nat, Service) -> nat)
  {
    function Position(isNew: bool, bucket: nat, s: Service): nat {
      position(isNew, bucket, s) % BUCKET_SIZE
    }
    function NewBucket(s: Service, source: NetAddr): nat { primary(s, source) % NEW_BUCKETS }
    function NewSlot(s: Service, source: NetAddr): Slot {
      Slot(NewBucket(s, source), Position(true, NewBucket(s, source), s))
    }
    function TriedSlot(s: Service): Slot {
      var bucket := tried(s) % TRIED_BUCKETS;
      Slot(bucket, Position(false, bucket, s))
    }
  }

  datatype State = State(
    hasher: Hasher, idCount: int, infos: map<Id, Info>, ids: map<NetAddr, Id>, random: seq<Id>,
    newTable: map<Slot, Id>, triedTable: map<Slot, Id>, newCount: int, triedCount: int,
    lastGood: int)

  function Empty(hasher: Hasher): State {
    State(hasher, 0, map[], map[], [], map[], map[], 0, 0, 1)
  }

  // ---------------------------------------------------------------- invariant

  /** The slots of a table that hold id. */
  ghost function SlotsOf(table: map<Slot, Id>, id: Id): set<Slot> {
    set t | t in table && table[t] == id
  }
  ghost function NewIds(infos: map<Id, Info>): set<Id> { set id | id in infos && !infos[id].inTried }
  ghost function TriedIds(infos: map<Id, Info>): set<Id> { set id | id in infos && infos[id].inTried }

  /** random lists every id once, and entries know their position in it. */
  ghost predicate RandomOk(infos: map<Id, Info>, random: seq<Id>) {
    && |random| == |infos|
    && (forall id | id in infos :: 0 <= infos[id].randomPos < |random| && random[infos[id].randomPos] == id)
    && (forall i | 0 <= i < |random| :: random[i] in infos && infos[random[i]].randomPos == i)
  }

  /** Ids are handed out in order, from zero on. */
  ghost predicate IdRange(infos: map<Id, Info>, idCount: int) {
    0 <= idCount && forall id | id in infos :: 0 <= id.n < idCount
  }

  /** ids maps exactly the network addresses of the entries, each to its entry. */
  ghost predicate IdsOk(infos: map<Id, Info>, ids: map<NetAddr, Id>) {
    && (forall id | id in infos :: infos[id].service.addr in ids && ids[infos[id].service.addr] == id)
    && (forall a | a in ids :: ids[a] in infos && infos[ids[a]].service.addr == a)
  }

  /** Every occupied "new" slot is the hashed slot of a non-tried entry. */
  ghost predicate NewSlotsOk(h: Hasher, infos: map<Id, Info>, table: map<Slot, Id>) {
    forall t | t in table ::
      && t.bucket < NEW_BUCKETS
      && table[t] in infos
      && !infos[table[t]].inTried
      && t.pos == h.Position(true, t.bucket, infos[table[t]].service)
  }

  /** Reference counts are true counts, between 1 and 8 for a non-tried entry.  Entries in
      limbo are in neither table. */
  ghost predicate RefCountsOk(infos: map<Id, Info>, table: map<Slot, Id>, limbo: set<Id>) {
    && (forall id | id in infos :: infos[id].refCount == |SlotsOf(table, id)|)
    && (forall id | id in infos && id !in limbo && !infos[id].inTried ::
          1 <= infos[id].refCount <= NEW_BUCKETS_PER_ADDRESS)
    && (forall id | id in infos && id in limbo :: infos[id].refCount == 0 && !infos[id].inTried)
  }

  /** Tried entries occupy exactly their hashed slot and no "new" slot. */
  ghost predicate TriedOk(h: Hasher, infos: map<Id, Info>, table: map<Slot, Id>) {
    && (forall t | t in table ::
          && table[t] in infos
          && infos[table[t]].inTried
          && t == h.TriedSlot(infos[table[t]].service))
    && (forall id | id in infos && infos[id].inTried ::
          && infos[id].refCount == 0
          && h.TriedSlot(infos[id].service) in table
          && table[h.TriedSlot(infos[id].service)] == id)
  }

  /** The invariant inside an operation, but for the index of addresses: the entries of limbo are being moved, and
      uncounted of them are missing from newCount. */
  ghost predicate InvL(s: State, limbo: set<Id>, uncounted: int) {
    && RandomOk(s.infos, s.random)
    && IdRange(s.infos, s.idCount)
    && NewSlotsOk(s.hasher, s.infos, s.newTable)
    && RefCountsOk(s.infos, s.newTable, limbo)
    && TriedOk(s.hasher, s.infos, s.triedTable)
    && s.newCount == |NewIds(s.infos)| - uncounted
    && s.triedCount == |TriedIds(s.infos)|
  }

  /** The invariant between operations, but for the index of addresses. */
  ghost predicate Sound(s: State) { InvL(s, {}, 0) }

  ghost predicate Indexed(s: State) { IdsOk(s.infos, s.ids) }

  /** What Check_ tests between operations, except the timestamps (see AddrManTimes). */
  ghost predicate Inv(s: State) { Sound(s) && Indexed(s) }

  // --------------------------------------------------------------- operations

  function U32(x: int): int { x % 0x1_0000_0000 }
  function Max(a: int, b: int): int { if a < b then b else a }

  function Find(s: State, a: NetAddr): (id: Id)
    ensures id != NO_ID ==> a in s.ids && s.ids[a] == id && id in s.infos
  {
    if a in s.ids && s.ids[a] in s.infos then s.ids[a] else NO_ID
  }

  function SetInfo(s: State, id: Id, info: Info): State {
    s.(infos := s.infos[id := info])
  }

  function Create(s: State, a: Address, source: NetAddr): State {
    s.(idCount := s.idCount + 1,
       infos := s.infos[Id(s.idCount) := Info(a.service, a.services, a.time, source, 0, 0, 0, 0, 0, false, |s.random|)],
       ids := s.ids[a.service.addr := Id(s.idCount)],
       random := s.random + [Id(s.idCount)])
  }

  /** The assertions of SwapRandom, as a guard its callers must establish. */
  predicate CanSwap(s: State, i: int, j: int) {
    && 0 <= i < |s.random| && 0 <= j < |s.random|
    && s.random[i] in s.infos && s.random[j] in s.infos
  }

  function SwapRandom(s: State, i: int, j: int): (s': State)
    requires i != j ==> CanSwap(s, i, j)
    ensures |s'.random| == |s.random|
  {
    if i == j then s
    else
      var a, b := s.random[i], s.random[j];
      var infos1 := s.infos[a := s.infos[a].(randomPos := j)];
      s.(infos := infos1[b := infos1[b].(randomPos := i)], random := s.random[i := b][j := a])
  }

  /** The assertions of Delete. */
  predicate CanDelete(s: State, id: Id) {
    && id in s.infos && !s.infos[id].inTried && s.infos[id].refCount == 0
    && |s.random| > 0 && CanSwap(s, s.infos[id].randomPos, |s.random| - 1)
  }

  /** Forget entry id, the last of random. */
  function Forget(s: State, id: Id): State
    requires id in s.infos && |s.random| > 0
  {
    s.(random := s.random[..|s.random| - 1], ids := s.ids - {s.infos[id].service.addr},
       infos := s.infos - {id}, newCount := s.newCount - 1)
  }

  function Delete(s: State, id: Id): State
    requires CanDelete(s, id)
  {
    Forget(SwapRandom(s, s.infos[id].randomPos, |s.random| - 1), id)
  }

  /** Take slot t away from the entry it holds, without deleting the entry. */
  function DropRef(s: State, t: Slot): State
    requires t in s.newTable && s.newTable[t] in s.infos
  {
    var id := s.newTable[t];
    s.(newTable := s.newTable - {t}, infos := s.infos[id := s.infos[id].(refCount := s.infos[id].refCount - 1)])
  }

  /** The assertions of ClearNew and of the Delete it may call. */
  predicate CanClear(s: State, t: Slot) {
    t in s.newTable ==>
      && s.newTable[t] in s.infos && s.infos[s.newTable[t]].refCount > 0
      && (s.infos[s.newTable[t]].refCount == 1 ==> CanDelete(DropRef(s, t), s.newTable[t]))
  }

  function ClearNew(s: State, t: Slot): State
    requires CanClear(s, t)
  {
    if t !in s.newTable then s
    else if s.infos[s.newTable[t]].refCount == 1 then Delete(DropRef(s, t), s.newTable[t])
    else DropRef(s, t)
  }

  /** Enter id in slot t. */
  function PlaceNew(s: State, t: Slot, id: Id): State
    requires id in s.infos
  {
    s.(newTable := s.newTable[t := id], infos := s.infos[id := s.infos[id].(refCount := s.infos[id].refCount + 1)])
  }

  /** First half of MakeTried: id leaves every "new" bucket. */
  ghost function LeaveNew(s: State, id: Id): State
    requires id in s.infos
  {
    s.(newTable := s.newTable - SlotsOf(s.newTable, id), newCount := s.newCount - 1,
       infos := s.infos[id := s.infos[id].(refCount := s.infos[id].refCount - |SlotsOf(s.newTable, id)|)])
  }

  /** The holder of t leaves the tried table. */
  function LeaveTried(s: State, t: Slot): State
    requires t in s.triedTable && s.triedTable[t] in s.infos
  {
    var e := s.triedTable[t];
    s.(triedTable := s.triedTable - {t}, triedCount := s.triedCount - 1,
       infos := s.infos[e := s.infos[e].(inTried := false)])
  }

  /** The evicted holder of t re-enters the "new" table in its primary slot. */
  predicate CanEvict(s: State, t: Slot) {
    && t in s.triedTable && s.triedTable[t] in s.infos
    && var e := s.triedTable[t];
    && var s1 := LeaveTried(s, t);
    && var u := s.hasher.NewSlot(s.infos[e].service, s.infos[e].source);
    && CanClear(s1, u)
    && u !in ClearNew(s1, u).newTable
    && e in ClearNew(s1, u).infos && ClearNew(s1, u).infos[e].refCount == 0
  }

  function Evict(s: State, t: Slot): State
    requires CanEvict(s, t)
  {
    var e := s.triedTable[t];
    var u := s.hasher.NewSlot(s.infos[e].service, s.infos[e].source);
    Reenter(ClearNew(LeaveTried(s, t), u), u, e)
  }

  function Reenter(s: State, t: Slot, id: Id): State
    requires id in s.infos
  {
    PlaceNew(s, t, id).(newCount := s.newCount + 1)
  }

  function EnterTried(s: State, t: Slot, id: Id): State
    requires id in s.infos
  {
    s.(triedTable := s.triedTable[t := id], triedCount := s.triedCount + 1,
       infos := s.infos[id := s.infos[id].(inTried := true)])
  }

  /** The assertions of MakeTried. */
  ghost predicate CanMakeTried(s: State, id: Id) {
    && id in s.infos
    && var s1 := LeaveNew(s, id);
    && s1.infos[id].refCount == 0
    && var t := s.hasher.TriedSlot(s.infos[id].service);
    && (t in s1.triedTable ==> CanEvict(s1, t) && id in Evict(s1, t).infos && t !in Evict(s1, t).triedTable)
  }

  ghost function MakeTried(s: State, id: Id): State
    requires CanMakeTried(s, id)
  {
    var s1 := LeaveNew(s, id);
    var t := s.hasher.TriedSlot(s.infos[id].service);
    EnterTried(if t in s1.triedTable then Evict(s1, t) else s1, t, id)
  }

  /** Good_: promote a known service. */
  function Promoted(s: State, id: Id, time: int): State
    requires id in s.infos
  {
    SetInfo(s, id, s.infos[id].(lastSuccess := time, lastTry := time, attempts := 0))
  }

  ghost predicate CanGood(s: State, svc: Service, time: int) {
    var id := Find(s, svc.addr);
    id != NO_ID && s.infos[id].service == svc && !s.infos[id].inTried ==>
      CanMakeTried(Promoted(s.(lastGood := time), id, time), id)
  }

  ghost function Good(s: State, svc: Service, time: int): State
    requires CanGood(s, svc, time)
  {
    var s0 := s.(lastGood := time);
    var id := Find(s, svc.addr);
    if id == NO_ID || s.infos[id].service != svc then s0
    else if s.infos[id].inTried then Promoted(s0, id, time)
    else MakeTried(Promoted(s0, id, time), id)
  }

  /** The refreshed time and services of a known entry that is announced again. */
  function Refreshed(info: Info, a: Address, penalty: int, now: int): Info {
    var interval := if now - a.time < 24 * 60 * 60 then 60 * 60 else 24 * 60 * 60;
    var time := if a.time != 0 && (info.time == 0 || info.time < a.time - interval - penalty)
                then U32(Max(0, a.time - penalty)) else info.time;
    info.(time := time, services := info.services | a.services)
  }

  /** Each reference an entry already has makes another one twice as unlikely. */
  function Factor(refCount: int): (f: int)
    ensures f >= 1
  {
    if refCount <= 0 then 1 else 2 * Factor(refCount - 1)
  }

  /** Whether Add_ goes on to look for a slot for a known entry, given the draw rnd. */
  predicate WantsSlot(info: Info, a: Address, rnd: nat) {
    && !(a.time == 0 || (info.time != 0 && a.time <= info.time))
    && !info.inTried
    && info.refCount != NEW_BUCKETS_PER_ADDRESS
    && rnd % Factor(info.refCount) == 0
  }

  function Penalty(a: Address, source: NetAddr, penalty: int): int {
    if a.service.addr == source then 0 else penalty
  }

  /** Whether Add_ may overwrite slot t for entry id. */
  predicate MayTake(s: State, t: Slot, id: Id, now: int)
    requires id in s.infos && (t in s.newTable ==> s.newTable[t] in s.infos)
  {
    t in s.newTable ==>
      s.infos[s.newTable[t]].IsTerrible(now) ||
      (s.infos[s.newTable[t]].refCount > 1 && s.infos[id].refCount == 0)
  }

  /** The assertions of the second half of Add_. */
  predicate CanSettle(s: State, id: Id, source: NetAddr, now: int) {
    && id in s.infos
    && var t := s.hasher.NewSlot(s.infos[id].service, source);
    && (t in s.newTable ==> s.newTable[t] in s.infos)
    && (!(t in s.newTable && s.newTable[t] == id) ==>
          if MayTake(s, t, id, now) then CanClear(s, t) && id in ClearNew(s, t).infos
          else s.infos[id].refCount == 0 ==> CanDelete(s, id))
  }

  /** Second half of Add_: look for a slot for entry id. */
  function Settle(s: State, id: Id, source: NetAddr, now: int): State
    requires CanSettle(s, id, source, now)
  {
    var t := s.hasher.NewSlot(s.infos[id].service, source);
    if t in s.newTable && s.newTable[t] == id then s
    else if MayTake(s, t, id, now) then PlaceNew(ClearNew(s, t), t, id)
    else if s.infos[id].refCount == 0 then Delete(s, id)
    else s
  }

  function Created(s: State, a: Address, source: NetAddr, penalty: int): State {
    var s1 := Create(s, a, source);
    var info := s1.infos[Id(s.idCount)];
    SetInfo(s1, Id(s.idCount), info.(time := U32(Max(0, info.time - penalty)))).(newCount := s1.newCount + 1)
  }

  predicate CanAdd(s: State, a: Address, routable: bool, source: NetAddr, penalty: int, now: int, rnd: nat) {
    routable ==>
      var id := Find(s, a.service.addr);
      if id != NO_ID then
        var info := Refreshed(s.infos[id], a, Penalty(a, source, penalty), now);
        WantsSlot(info, a, rnd) ==> CanSettle(SetInfo(s, id, info), id, source, now)
      else CanSettle(Created(s, a, source, Penalty(a, source, penalty)), Id(s.idCount), source, now)
  }

  function Add(s: State, a: Address, routable: bool, source: NetAddr, penalty: int, now: int, rnd: nat): State
    requires CanAdd(s, a, routable, source, penalty, now, rnd)
  {
    if !routable then s
    else
      var id := Find(s, a.service.addr);
      if id != NO_ID then
        var info := Refreshed(s.infos[id], a, Penalty(a, source, penalty), now);
        var s1 := SetInfo(s, id, info);
        if WantsSlot(info, a, rnd) then Settle(s1, id, source, now) else s1
      else Settle(Created(s, a, source, Penalty(a, source, penalty)), Id(s.idCount), source, now)
  }

  function Attempt(s: State, svc: Service, countFailure: bool, time: int): State {
    var id := Find(s, svc.addr);
    if id == NO_ID || s.infos[id].service != svc then s
    else
      var info := s.infos[id].(lastTry := time);
      SetInfo(s, id, if countFailure && info.lastCountAttempt < s.lastGood
                     then info.(lastCountAttempt := time, attempts := info.attempts + 1) else info)
  }

  function Connected(s: State, svc: Service, time: int): State {
    var id := Find(s, svc.addr);
    if id == NO_ID || s.infos[id].service != svc then s
    else if time - s.infos[id].time > 20 * 60 then SetInfo(s, id, s.infos[id].(time := U32(time)))
    else s
  }

  function SetServices(s: State, svc: Service, services: bv64): State {
    var id := Find(s, svc.addr);
    if id == NO_ID || s.infos[id].service != svc then s
    else SetInfo(s, id, s.infos[id].(services := services))
  }

  /** The position drawn to be swapped with position n. */
  function Pick(draw: nat -> nat, n: nat, size: nat): (j: nat)
    requires n < size
    ensures n <= j < size
  {
    draw(n) % (size - n) + n
  }

  /** GetAddr_ from position n on, draw(k) being the draw made at position k, and the addresses so far. */
  predicate CanGetAddr(s: State, n: nat, limit: int, draw: nat -> nat, out: seq<Address>, now: int)
    decreases |s.random| - n
  {
    n < |s.random| && |out| < limit ==>
      var j := Pick(draw, n, |s.random|);
      && (n != j ==> CanSwap(s, n, j))
      && var s1 := SwapRandom(s, n, j);
      && s1.random[n] in s1.infos
      && var info := s1.infos[s1.random[n]];
      && CanGetAddr(s1, n + 1, limit, draw, if info.IsTerrible(now) then out else out + [info.ToAddress()], now)
  }

  function GetAddr(s: State, n: nat, limit: int, draw: nat -> nat, out: seq<Address>, now: int): (State, seq<Address>)
    requires CanGetAddr(s, n, limit, draw, out, now)
    decreases |s.random| - n
  {
    if n < |s.random| && |out| < limit then
      var s1 := SwapRandom(s, n, Pick(draw, n, |s.random|));
      var info := s1.infos[s1.random[n]];
      GetAddr(s1, n + 1, limit, draw, if info.IsTerrible(now) then out else out + [info.ToAddress()], now)
    else (s, out)
  }

  function GetAddrLimit(size: nat): int {
    var n := GETADDR_MAX_PCT * size / 100;
    if n > GETADDR_MAX then GETADDR_MAX else n
  }
}
