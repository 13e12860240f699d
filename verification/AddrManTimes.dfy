/** The tests of Check_ on timestamps: no entry was tried or reached before the epoch, and a tried
    entry was reached at some time. */
module AddrManTimes {
  import opened AddrManSpec
  import opened AddrManProofs

  predicate TimeOk(i: Info) { i.lastTry >= 0 && i.lastSuccess >= 0 && (i.inTried ==> i.lastSuccess != 0) }

  ghost predicate TimesOk(m: map<Id, Info>) { forall id | id in m :: TimeOk(m[id]) }

  /** Entries may go, or leave the tried table, but keep these timestamps. */
  ghost predicate Tame(m: map<Id, Info>, m': map<Id, Info>) {
    forall id | id in m' :: id in m && m'[id].lastTry == m[id].lastTry && m'[id].lastSuccess == m[id].lastSuccess && (m'[id].inTried ==> m[id].inTried)
  }

  lemma TameOk(m: map<Id, Info>, m': map<Id, Info>)
    requires TimesOk(m) && Tame(m, m')
    ensures TimesOk(m')
  {
  }

  lemma TameTwice(m: map<Id, Info>, m1: map<Id, Info>, m2: map<Id, Info>)
    requires Tame(m, m1) && Tame(m1, m2)
    ensures Tame(m, m2)
  {
  }

  // ------------------------------------------------------------------ the parts

  lemma DeleteTame(s: State, id: Id)
    requires RandomOk(s.infos, s.random) && CanDelete(s, id)
    ensures Tame(s.infos, Delete(s, id).infos)
  {
    hide RandomOk, Delete;
    DeleteKept(s, id);
    forall k | k in Delete(s, id).infos ensures k in s.infos && Kept(s.infos, Delete(s, id).infos, k) {}
  }

  lemma ClearTame(s: State, t: Slot)
    requires RandomOk(s.infos, s.random) && CanClear(s, t)
    ensures Tame(s.infos, ClearNew(s, t).infos)
  {
    hide RandomOk, Delete;
    if t in s.newTable {
      var s1, id := DropRef(s, t), s.newTable[t];
      RewriteOk(s.infos, s.random, id, s1.infos[id]);
      if s.infos[id].refCount == 1 {
        DeleteTame(s1, id);
        TameTwice(s.infos, s1.infos, Delete(s1, id).infos);
      }
    }
  }

  lemma EvictTame(s: State, t: Slot)
    requires RandomOk(s.infos, s.random) && CanEvict(s, t)
    ensures Tame(s.infos, Evict(s, t).infos)
  {
    hide RandomOk, ClearNew, CanClear;
    var e := s.triedTable[t];
    var s1, u := LeaveTried(s, t), s.hasher.NewSlot(s.infos[e].service, s.infos[e].source);
    RewriteOk(s.infos, s.random, e, s1.infos[e]);
    ClearTame(s1, u);
    var s2 := ClearNew(s1, u);
    TameTwice(s.infos, s1.infos, s2.infos);
    TameTwice(s.infos, s2.infos, Reenter(s2, u, e).infos);
  }

  /** An entry is made tried: all is well just if it was reached at some time. */
  lemma MakeTriedTimes(s: State, id: Id)
    requires RandomOk(s.infos, s.random) && CanMakeTried(s, id) && forall k | k in s.infos && k != id :: TimeOk(s.infos[k])
    ensures TimesOk(MakeTried(s, id).infos) <==> s.infos[id].lastTry >= 0 && s.infos[id].lastSuccess > 0
  {
    hide RandomOk, Evict, CanEvict;
    var s1, t := LeaveNew(s, id), s.hasher.TriedSlot(s.infos[id].service);
    RewriteOk(s.infos, s.random, id, s1.infos[id]);
    var s2 := if t in s1.triedTable then Evict(s1, t) else s1;
    if t in s1.triedTable { EvictTame(s1, t); }
    assert Tame(s.infos, s2.infos);
    assert MakeTried(s, id).infos == s2.infos[id := s2.infos[id].(inTried := true)];
    hide Tame, TimesOk;
    EnterTimes(s.infos, s2.infos, id);
  }

  lemma EnterTimes(m: map<Id, Info>, m': map<Id, Info>, id: Id)
    requires Tame(m, m') && id in m && id in m' && forall k | k in m && k != id :: TimeOk(m[k])
    ensures TimesOk(m'[id := m'[id].(inTried := true)]) <==> m[id].lastTry >= 0 && m[id].lastSuccess > 0
  {
    var r := m'[id := m'[id].(inTried := true)];
    assert TimesOk(r) ==> TimeOk(r[id]);
  }

  lemma SwapTame(s: State, i: int, j: int)
    requires i != j ==> CanSwap(s, i, j)
    ensures Tame(s.infos, SwapRandom(s, i, j).infos)
  {
  }

  lemma SettleTame(s: State, id: Id, source: NetAddr, now: int)
    requires RandomOk(s.infos, s.random) && CanSettle(s, id, source, now)
    ensures Tame(s.infos, Settle(s, id, source, now).infos)
  {
    hide RandomOk, ClearNew, CanClear, Delete, CanDelete;
    var t := s.hasher.NewSlot(s.infos[id].service, source);
    if t in s.newTable && s.newTable[t] == id {
    } else if MayTake(s, t, id, now) {
      ClearTame(s, t);
      TameTwice(s.infos, ClearNew(s, t).infos, Settle(s, id, source, now).infos);
    } else if s.infos[id].refCount == 0 {
      DeleteTame(s, id);
    }
  }

  lemma RewriteTimes(m: map<Id, Info>, id: Id, info: Info)
    requires TimesOk(m)
    ensures TimesOk(m[id := info]) <==> TimeOk(info)
  {
    assert m[id := info][id] == info;
  }

  lemma AddTimes(s: State, a: Address, routable: bool, source: NetAddr, penalty: int, now: int, rnd: nat)
    requires Sound(s) && TimesOk(s.infos) && CanAdd(s, a, routable, source, penalty, now, rnd)
    ensures TimesOk(Add(s, a, routable, source, penalty, now, rnd).infos)
  {
    hide RandomOk, IdsOk, NewSlotsOk, RefCountsOk, TriedOk, NewIds, TriedIds, CanSettle, Settle, WantsSlot, TimesOk;
    var id := Find(s, a.service.addr);
    if !routable {
    } else if id != NO_ID {
      var info := Refreshed(s.infos[id], a, Penalty(a, source, penalty), now);
      var s1 := SetInfo(s, id, info);
      assert TimeOk(s.infos[id]) by { At(s.infos, id); }
      RewriteTimes(s.infos, id, info);
      RewriteOk(s.infos, s.random, id, info);
      if WantsSlot(info, a, rnd) {
        SettleTame(s1, id, source, now);
        TameOk(s1.infos, Settle(s1, id, source, now).infos);
      }
    } else {
      var s1, p := Created(s, a, source, Penalty(a, source, penalty)), Id(s.idCount);
      Unlisted(s);
      NewEntryRandom(s.infos, s.random, p, s1.infos[p]);
      assert s1.infos == s.infos[p := s1.infos[p]];
      RewriteTimes(s.infos, p, s1.infos[p]);
      SettleTame(s1, p, source, now);
      TameOk(s1.infos, Settle(s1, p, source, now).infos);
    }
  }

  lemma At(m: map<Id, Info>, id: Id)
    requires TimesOk(m) && id in m
    ensures TimeOk(m[id])
  {
  }

  lemma Unlisted(s: State)
    requires Sound(s)
    ensures Id(s.idCount) !in s.infos
  {
    hide RandomOk, NewSlotsOk, RefCountsOk, TriedOk;
  }

  lemma {:induction false} GetAddrTimes(s: State, n: nat, limit: int, draw: nat -> nat, out: seq<Address>, now: int)
    requires TimesOk(s.infos) && CanGetAddr(s, n, limit, draw, out, now)
    ensures TimesOk(GetAddr(s, n, limit, draw, out, now).0.infos)
    decreases |s.random| - n
  {
    hide TimesOk, SwapRandom, Tame, CanSwap, Info.IsTerrible;
    if n < |s.random| && |out| < limit {
      var j := Pick(draw, n, |s.random|);
      var s1 := SwapRandom(s, n, j);
      SwapTame(s, n, j);
      TameOk(s.infos, s1.infos);
      var info := s1.infos[s1.random[n]];
      GetAddrTimes(s1, n + 1, limit, draw, if info.IsTerrible(now) then out else out + [info.ToAddress()], now);
    }
  }

  // ----------------------------------------------------------------------- runs

  ghost predicate Known(s: State, svc: Service) {
    var id := Find(s, svc.addr);
    id != NO_ID && s.infos[id].service == svc
  }

  /** A time that is stored is not before the epoch, and a success not at the epoch. */
  ghost predicate StoresTime(s: State, op: Op) {
    match op
    case OpGood(svc, time) => Known(s, svc) ==> time > 0
    case OpAttempt(svc, _, time) => Known(s, svc) ==> time >= 0
    case _ => true
  }

  lemma GoodTimes(s: State, svc: Service, time: int)
    requires Sound(s) && TimesOk(s.infos) && CanGood(s, svc, time)
    ensures TimesOk(Good(s, svc, time).infos) <==> (Known(s, svc) ==> time > 0)
  {
    hide RandomOk, IdsOk, NewSlotsOk, RefCountsOk, TriedOk, NewIds, TriedIds, MakeTried, CanMakeTried;
    if Known(s, svc) {
      var id := Find(s, svc.addr);
      var s1 := Promoted(s.(lastGood := time), id, time);
      RewriteTimes(s.infos, id, s1.infos[id]);
      RewriteOk(s.infos, s.random, id, s1.infos[id]);
      if !s.infos[id].inTried { MakeTriedTimes(s1, id); }
    }
  }

  /** One call keeps the timestamps in order if and only if it stores a proper time. */
  lemma StepTimes(s: State, op: Op)
    requires Sound(s) && TimesOk(s.infos) && Runs(s, op)
    ensures TimesOk(Step(s, op).infos) <==> StoresTime(s, op)
  {
    hide Sound, TimesOk, Add, Good, GetAddr, CanAdd, CanGood, CanGetAddr, Find;
    match op
    case OpAdd(a, routable, source, penalty, now, rnd) => AddTimes(s, a, routable, source, penalty, now, rnd);
    case OpGood(svc, time) => GoodTimes(s, svc, time);
    case OpAttempt(svc, countFailure, time) => Rewritten(s, svc, Attempt(s, svc, countFailure, time));
    case OpConnected(svc, time) => Rewritten(s, svc, Connected(s, svc, time));
    case OpSetServices(svc, services) => Rewritten(s, svc, SetServices(s, svc, services));
    case OpGetAddr(draw, now) => GetAddrTimes(s, 0, GetAddrLimit(|s.random|), draw, [], now);
  }

  /** A call that rewrites the entry of a known service, at most. */
  lemma Rewritten(s: State, svc: Service, r: State)
    requires TimesOk(s.infos)
    requires r.infos == s.infos || (Known(s, svc) && var id := Find(s, svc.addr); id in r.infos && r.infos == s.infos[id := r.infos[id]])
    ensures TimesOk(r.infos) <==> r.infos == s.infos || TimeOk(r.infos[Find(s, svc.addr)])
    ensures Known(s, svc) ==> TimeOk(s.infos[Find(s, svc.addr)])
  {
    hide TimesOk;
    if Known(s, svc) { At(s.infos, Find(s, svc.addr)); }
    if r.infos != s.infos {
      var id := Find(s, svc.addr);
      RewriteTimes(s.infos, id, r.infos[id]);
    }
  }

  /** Over a whole run, Check_ finds the timestamps in order at every point if and only if every
      call stores proper times. */
  lemma {:induction false} EveryRunTimes(s: State, ops: seq<Op>, states: seq<State>)
    requires Sound(s) && TimesOk(s.infos) && IsRun(s, ops, states)
    ensures (forall k | 0 <= k < |states| :: TimesOk(states[k].infos)) <==> (forall k | 0 <= k < |ops| :: StoresTime(states[k], ops[k]))
    decreases ops
  {
    hide Sound, Runs, Step, TimesOk, StoresTime;
    if ops != [] {
      var n := |ops| - 1;
      var a, b := states[..n + 1], ops[..n];
      EveryRunTimes(s, b, a);
      RunSound(s, ops, states, n);
      if TimesOk(states[n].infos) { StepTimes(states[n], ops[n]); }
      SplitRun(ops, states, n, a, b);
    }
  }

  lemma SplitRun(ops: seq<Op>, states: seq<State>, n: nat, a: seq<State>, b: seq<Op>)
    requires |ops| == n + 1 && |states| == n + 2 && a == states[..n + 1] && b == ops[..n]
    ensures (forall k | 0 <= k < |states| :: TimesOk(states[k].infos)) <==>
            (forall k | 0 <= k < |a| :: TimesOk(a[k].infos)) && TimesOk(states[n + 1].infos)
    ensures (forall k | 0 <= k < |ops| :: StoresTime(states[k], ops[k])) <==>
            (forall k | 0 <= k < |b| :: StoresTime(a[k], b[k])) && StoresTime(states[n], ops[n])
  {
    hide TimesOk, StoresTime;
    assert forall k | 0 <= k < n + 1 :: a[k] == states[k];
    assert forall k | 0 <= k < n :: b[k] == ops[k];
  }

  lemma {:induction false} RunSound(s: State, ops: seq<Op>, states: seq<State>, k: nat)
    requires Sound(s) && IsRun(s, ops, states) && k < |states|
    ensures Sound(states[k])
    decreases k
  {
    hide Sound, Runs, Step;
    if k > 0 {
      RunSound(s, ops, states, k - 1);
      StepInv(states[k - 1], ops[k - 1]);
    }
  }

  /** A new manager has no timestamps; an address is added, and then reached at time zero. */
  lemma ReachedAtEpoch(h: Hasher, a: Address, source: NetAddr, now: int) returns (states: seq<State>)
    ensures IsRun(Empty(h), [OpAdd(a, true, source, 0, now, 0), OpGood(a.service, 0)], states)
    ensures TimesOk(states[1].infos) && !TimesOk(states[2].infos)
  {
    var ops := [OpAdd(a, true, source, 0, now, 0), OpGood(a.service, 0)];
    states := EveryRun(h, ops);
    var s1 := states[1];
    assert s1 == Step(Empty(h), ops[0]);
    FirstAdded(h, a, source, now);
    assert TimesOk(Empty(h).infos);
    StepTimes(Empty(h), ops[0]);
    assert states[2] == Step(s1, ops[1]);
    StepTimes(s1, ops[1]);
  }

  lemma FirstAdded(h: Hasher, a: Address, source: NetAddr, now: int)
    ensures Sound(Empty(h)) && CanAdd(Empty(h), a, true, source, 0, now, 0)
    ensures Known(Add(Empty(h), a, true, source, 0, now, 0), a.service)
  {
    EmptyInv(h);
    hide Sound, Settle, CanSettle;
    AddInv(Empty(h), a, true, source, 0, now, 0);
    var s1 := Created(Empty(h), a, source, Penalty(a, source, 0));
    FirstSettled(s1, a, source, now);
  }

  lemma FirstSettled(s: State, a: Address, source: NetAddr, now: int)
    requires s.newTable == map[] && Id(0) in s.infos && s.infos[Id(0)].service == a.service && CanSettle(s, Id(0), source, now)
    requires a.service.addr in s.ids && s.ids[a.service.addr] == Id(0)
    ensures Known(Settle(s, Id(0), source, now), a.service)
  {
    var t := s.hasher.NewSlot(a.service, source);
    assert Settle(s, Id(0), source, now) == PlaceNew(s, t, Id(0));
  }
}
