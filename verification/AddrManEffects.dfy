/** What the operations of the address manager achieve, beyond keeping it consistent. */
module AddrManEffects {
  import opened AddrManSpec
  import opened AddrManProofs

  /** Slot t gives up its holder: a single-reference holder is deleted, any other loses one
      reference.  Every other entry stays. */
  ghost predicate Released(m: map<Id, Info>, m': map<Id, Info>, table: map<Slot, Id>, t: Slot, id: Id)
    requires id in m
  {
    if t in table && table[t] == id then
      if m[id].refCount == 1 then id !in m' else id in m' && m'[id] == m[id].(refCount := m[id].refCount - 1)
    else Kept(m, m', id)
  }

  lemma ClearNewReleases(s: State, limbo: set<Id>, u: int, t: Slot)
    requires InvL(s, limbo, u)
    ensures CanClear(s, t)
    ensures ClearNew(s, t).infos.Keys <= s.infos.Keys
    ensures forall id | id in s.infos :: Released(s.infos, ClearNew(s, t).infos, s.newTable, t, id)
  {
    hide InvL, Indexed, RandomOk, Delete, CanDelete;
    ClearNewInv(s, limbo, u, t);
    if t in s.newTable && s.infos[s.newTable[t]].refCount == 1 {
      var id := s.newTable[t];
      DropRefInv(s, limbo, u, t);
      DeleteInv(DropRef(s, t), limbo + {id}, u, id);
      Position(DropRef(s, t), limbo + {id}, u, id);
      DeleteKept(DropRef(s, t), id);
    }
  }

  /** Good_ promotes the entry.  The entry that held its tried slot goes back to its primary
      "new" slot, whose holder gives up a reference; no other entry changes.  So at most one
      entry is forgotten, and only one that had a single reference. */
  ghost predicate GoodEffect(s: State, s': State, id: Id, time: int)
    requires id in s.infos
  {
    var t := s.hasher.TriedSlot(s.infos[id].service);
    && id in s'.infos
    && s'.infos[id] == s.infos[id].(lastSuccess := time, lastTry := time, attempts := 0, refCount := 0,
                                    inTried := true, randomPos := s'.infos[id].randomPos)
    && s'.triedTable == s.triedTable[t := id]
    && s'.infos.Keys <= s.infos.Keys
    && if t in s.triedTable then
         var e := s.triedTable[t];
         && e in s.infos && e in s'.infos
         && var u := s.hasher.NewSlot(s.infos[e].service, s.infos[e].source);
         && s'.infos[e] == s.infos[e].(inTried := false, refCount := 1, randomPos := s'.infos[e].randomPos)
         && s'.newTable == (s.newTable - SlotsOf(s.newTable, id))[u := e]
         && forall k | k in s.infos && k != id && k != e :: Released(s.infos, s'.infos, s.newTable, u, k)
       else
         && s'.newTable == s.newTable - SlotsOf(s.newTable, id)
         && forall k | k in s.infos && k != id :: Kept(s.infos, s'.infos, k)
  }

  ghost predicate EvictEffect(s: State, s': State, t: Slot)
    requires t in s.triedTable && s.triedTable[t] in s.infos
  {
    var e := s.triedTable[t];
    var u := s.hasher.NewSlot(s.infos[e].service, s.infos[e].source);
    && s'.hasher == s.hasher
    && s'.infos.Keys <= s.infos.Keys && e in s'.infos
    && s'.infos[e] == s.infos[e].(inTried := false, refCount := 1, randomPos := s'.infos[e].randomPos)
    && s'.newTable == s.newTable[u := e] && s'.triedTable == s.triedTable - {t}
    && forall k | k in s.infos && k != e :: Released(s.infos, s'.infos, s.newTable, u, k)
  }

  lemma EvictMoves(s: State, limbo: set<Id>, u: int, t: Slot)
    requires InvL(s, limbo, u) && t in s.triedTable
    ensures CanEvict(s, t)
    ensures s.triedTable[t] in s.infos && s.triedTable[t] !in limbo
    ensures EvictEffect(s, Evict(s, t), t)
  {
    hide InvL, Indexed, ClearNew, CanClear, Released;
    EvictInv(s, limbo, u, t);
    LeaveTriedInv(s, limbo, u, t);
    var e := s.triedTable[t];
    var s1 := LeaveTried(s, t);
    var n := s.hasher.NewSlot(s.infos[e].service, s.infos[e].source);
    ClearNewInv(s1, limbo + {e}, u + 1, n);
    ClearNewReleases(s1, limbo + {e}, u + 1, n);
    var s2 := ClearNew(s1, n);
    Unheld(s1, s2, limbo + {e}, u + 1, n, e);
    forall k | k in s.infos && k != e ensures Released(s.infos, Evict(s, t).infos, s.newTable, n, k) {
      SameRelease(s.infos, s1.infos, s2.infos, Evict(s, t).infos, s.newTable, n, k);
    }
  }

  /** The entry that left the tried table holds no slot, so clearing one leaves it alone. */
  lemma Unheld(s: State, s': State, limbo: set<Id>, u: int, n: Slot, e: Id)
    requires InvL(s, limbo, u) && e in s.infos && e in limbo && Released(s.infos, s'.infos, s.newTable, n, e)
    ensures e in s'.infos && s'.infos[e] == s.infos[e].(randomPos := s'.infos[e].randomPos) && s.infos[e].refCount == 0
  {
    hide RandomOk, IdsOk, NewSlotsOk, TriedOk, NewIds, TriedIds;
    InLimbo(s.infos, s.newTable, limbo, e);
  }

  lemma SameRelease(m: map<Id, Info>, m1: map<Id, Info>, m2: map<Id, Info>, m3: map<Id, Info>, table: map<Slot, Id>, n: Slot, k: Id)
    requires k in m && k in m1 && m1[k] == m[k] && Released(m1, m2, table, n, k)
    requires (k in m3 <==> k in m2) && (k in m2 ==> m3[k] == m2[k])
    ensures Released(m, m3, table, n, k)
  {
  }

  lemma MakeTriedMoves(s: State, id: Id)
    requires Sound(s) && id in s.infos && !s.infos[id].inTried
    requires s.infos[id].lastTry == s.infos[id].lastSuccess && s.infos[id].attempts == 0
    ensures CanMakeTried(s, id)
    ensures GoodEffect(s, MakeTried(s, id), id, s.infos[id].lastSuccess)
  {
    hide InvL, Indexed, Evict, CanEvict;
    MakeTriedInv(s, id);
    LeaveNewInv(s, {}, 0, id);
    assert {} + {id} == {id};
    var s1 := LeaveNew(s, id);
    var t := s.hasher.TriedSlot(s.infos[id].service);
    if t in s1.triedTable {
      EvictMoves(s1, {id}, 1, t);
      EvictInv(s1, {id}, 1, t);
      var e := s1.triedTable[t];
      var u := s.hasher.NewSlot(s.infos[e].service, s.infos[e].source);
      var s2 := Evict(s1, t);
      assert Kept(s1.infos, s2.infos, id);
      forall k | k in s.infos && k != id && k != e
        ensures Released(s.infos, MakeTried(s, id).infos, s.newTable, u, k)
      {
        assert Released(s1.infos, s2.infos, s1.newTable, u, k);
      }
    }
  }

  lemma GoodPromotes(s: State, svc: Service, time: int)
    requires Sound(s)
    ensures CanGood(s, svc, time)
    ensures var id := Find(s, svc.addr);
      id != NO_ID && s.infos[id].service == svc && !s.infos[id].inTried ==>
        GoodEffect(s, Good(s, svc, time), id, time)
  {
    hide InvL, Indexed, MakeTried, CanMakeTried;
    GoodInv(s, svc, time);
    var id := Find(s, svc.addr);
    if id != NO_ID && s.infos[id].service == svc && !s.infos[id].inTried {
      LastGoodInv(s, time);
      var s0 := s.(lastGood := time);
      SetInfoInv(s0, id, s0.infos[id].(lastSuccess := time, lastTry := time, attempts := 0));
      var s1 := Promoted(s0, id, time);
      MakeTriedMoves(s1, id);
      PromotedEffect(s, s1, MakeTried(s1, id), id, time);
    }
  }

  lemma PromotedEffect(s: State, s1: State, s': State, id: Id, time: int)
    requires id in s.infos && s1.hasher == s.hasher && s1.newTable == s.newTable && s1.triedTable == s.triedTable
    requires s1.infos == s.infos[id := s.infos[id].(lastSuccess := time, lastTry := time, attempts := 0)]
    requires GoodEffect(s1, s', id, time)
    requires s.hasher.TriedSlot(s.infos[id].service) in s.triedTable ==> s.triedTable[s.hasher.TriedSlot(s.infos[id].service)] != id
    ensures GoodEffect(s, s', id, time)
  {
    var t := s.hasher.TriedSlot(s.infos[id].service);
    if t in s.triedTable {
      var e := s.triedTable[t];
      var u := s.hasher.NewSlot(s.infos[e].service, s.infos[e].source);
      forall k | k in s.infos && k != id && k != e ensures Released(s.infos, s'.infos, s.newTable, u, k) {
        assert Released(s1.infos, s'.infos, s1.newTable, u, k);
      }
    } else {
      forall k | k in s.infos && k != id ensures Kept(s.infos, s'.infos, k) { assert Kept(s1.infos, s'.infos, k); }
    }
  }

  /** The second half of Add_: the entry gets its slot exactly when the slot is free or its
      holder may be displaced, and an entry left without a slot is forgotten. */
  ghost predicate SettleEffect(s: State, s': State, t: Slot, id: Id, now: int)
    requires id in s.infos && (t in s.newTable ==> s.newTable[t] in s.infos)
  {
    && s'.infos.Keys <= s.infos.Keys && s'.triedTable == s.triedTable
    && if t in s.newTable && s.newTable[t] == id then s' == s
       else if MayTake(s, t, id, now) then
         && s'.newTable == s.newTable[t := id] && id in s'.infos
         && s'.infos[id] == s.infos[id].(refCount := s.infos[id].refCount + 1, randomPos := s'.infos[id].randomPos)
         && forall k | k in s.infos && k != id :: Released(s.infos, s'.infos, s.newTable, t, k)
       else
         && s'.newTable == s.newTable
         && (id in s'.infos <==> s.infos[id].refCount != 0)
         && forall k | k in s.infos && (k != id || s.infos[id].refCount != 0) :: Kept(s.infos, s'.infos, k)
  }

  lemma TakeMoves(s: State, limbo: set<Id>, id: Id, t: Slot)
    requires InvL(s, limbo, 0) && id in s.infos && !(t in s.newTable && s.newTable[t] == id)
    ensures CanClear(s, t) && id in ClearNew(s, t).infos
    ensures var s' := PlaceNew(ClearNew(s, t), t, id);
      && s'.infos.Keys <= s.infos.Keys && s'.triedTable == s.triedTable
      && s'.newTable == s.newTable[t := id] && id in s'.infos
      && s'.infos[id] == s.infos[id].(refCount := s.infos[id].refCount + 1, randomPos := s'.infos[id].randomPos)
      && forall k | k in s.infos && k != id :: Released(s.infos, s'.infos, s.newTable, t, k)
  {
    hide InvL, Indexed, ClearNew, CanClear;
    ClearNewInv(s, limbo, 0, t);
    ClearNewReleases(s, limbo, 0, t);
    var s1 := ClearNew(s, t);
    assert Released(s.infos, s1.infos, s.newTable, t, id);
    forall k | k in s.infos && k != id
      ensures Released(s.infos, PlaceNew(s1, t, id).infos, s.newTable, t, k)
    {
      assert Released(s.infos, s1.infos, s.newTable, t, k);
    }
  }

  lemma SettleMoves(s: State, limbo: set<Id>, id: Id, source: NetAddr, now: int)
    requires InvL(s, limbo, 0) && id in s.infos && !s.infos[id].inTried && limbo <= {id}
    requires 0 <= s.infos[id].refCount < NEW_BUCKETS_PER_ADDRESS
    requires s.infos[id].refCount == 0 ==> limbo == {id}
    requires s.infos[id].refCount > 0 ==> limbo == {}
    ensures CanSettle(s, id, source, now)
    ensures SettleEffect(s, Settle(s, id, source, now), s.hasher.NewSlot(s.infos[id].service, source), id, now)
  {
    hide InvL, Indexed, RandomOk, ClearNew, CanClear, Delete, CanDelete, PlaceNew;
    SettleInv(s, limbo, id, source, now);
    var t := s.hasher.NewSlot(s.infos[id].service, source);
    if !(t in s.newTable && s.newTable[t] == id) {
      if MayTake(s, t, id, now) {
        TakeMoves(s, limbo, id, t);
      } else if s.infos[id].refCount == 0 {
        DeleteInv(s, limbo, 0, id);
        Position(s, limbo, 0, id);
        DeleteKept(s, id);
      }
    }
  }

  /** Whether a new entry may have slot t: it is free, or its holder is terrible or has
      other references. */
  ghost predicate Available(s: State, t: Slot, now: int) {
    t in s.newTable && s.newTable[t] in s.infos ==>
      s.infos[s.newTable[t]].IsTerrible(now) || s.infos[s.newTable[t]].refCount > 1
  }

  /** A routable address not known before is known afterwards exactly when its slot was
      available; then it has one reference, and only the displaced holder changes. */
  ghost predicate AddEffect(s: State, s': State, a: Address, t: Slot, now: int) {
    var id := Id(s.idCount);
    && (a.service.addr in s'.ids <==> Available(s, t, now))
    && if Available(s, t, now) then
         && s'.newTable == s.newTable[t := id]
         && id in s'.infos && s'.infos[id].service == a.service && s'.infos[id].refCount == 1
         && forall k | k in s.infos :: Released(s.infos, s'.infos, s.newTable, t, k)
       else
         && s'.newTable == s.newTable
         && forall k | k in s.infos :: Kept(s.infos, s'.infos, k)
  }

  lemma AddUnknown(s: State, a: Address, source: NetAddr, penalty: int, now: int, rnd: nat)
    requires Inv(s) && Find(s, a.service.addr) == NO_ID
    ensures CanAdd(s, a, true, source, penalty, now, rnd)
    ensures AddEffect(s, Add(s, a, true, source, penalty, now, rnd), a, s.hasher.NewSlot(a.service, source), now)
  {
    hide InvL, Indexed, Settle, CanSettle;
    AddInv(s, a, true, source, penalty, now, rnd);
    Unknown(s, a.service.addr);
    var p := Penalty(a, source, penalty);
    CreatedInv(s, a, source, p);
    var s1 := Created(s, a, source, p);
    var id := Id(s.idCount);
    SettleMoves(s1, {id}, id, source, now);
    var s' := Settle(s1, id, source, now);
    var t := s.hasher.NewSlot(a.service, source);
    HoldersOld(s, t);
    KnownIff(s', a.service.addr);
    AddedEffect(s, s1, s', a, t, now);
  }

  lemma AddedEffect(s: State, s1: State, s': State, a: Address, t: Slot, now: int)
    requires IdRange(s.infos, s.idCount) && IdsOk(s.infos, s.ids) && a.service.addr !in s.ids
    requires t in s.newTable ==> s.newTable[t] in s.infos
    requires Id(s.idCount) in s1.infos && s1.newTable == s.newTable
    requires s1.infos == s.infos[Id(s.idCount) := s1.infos[Id(s.idCount)]]
    requires s1.infos[Id(s.idCount)].service == a.service && s1.infos[Id(s.idCount)].refCount == 0
    requires SettleEffect(s1, s', t, Id(s.idCount), now)
    requires a.service.addr in s'.ids <==> exists k :: k in s'.infos && s'.infos[k].service.addr == a.service.addr
    ensures AddEffect(s, s', a, t, now)
  {
    var id := Id(s.idCount);
    assert id !in s.infos;
    assert MayTake(s1, t, id, now) <==> Available(s, t, now);
    forall k | k in s.infos
      ensures if Available(s, t, now) then Released(s.infos, s'.infos, s.newTable, t, k) else Kept(s.infos, s'.infos, k)
    {
      assert s1.infos[k] == s.infos[k];
      if Available(s, t, now) { assert Released(s1.infos, s'.infos, s1.newTable, t, k); }
      else { assert Kept(s1.infos, s'.infos, k); }
    }
    if k :| k in s'.infos && s'.infos[k].service.addr == a.service.addr {
      if k != id { assert k in s.infos; }
    }
    if id in s'.infos { assert s'.infos[id].service.addr == a.service.addr; }
  }

  lemma HoldersOld(s: State, t: Slot)
    requires Inv(s)
    ensures IdRange(s.infos, s.idCount) && IdsOk(s.infos, s.ids)
    ensures t in s.newTable ==> s.newTable[t] in s.infos
  {
  }

  lemma KnownIff(s: State, a: NetAddr)
    requires Inv(s)
    ensures a in s.ids <==> exists id :: id in s.infos && s.infos[id].service.addr == a
  {
    if a in s.ids { assert s.infos[s.ids[a]].service.addr == a; }
  }

  // ------------------------------------------------------------------ GetAddr_

  /** The addresses of the entries of ids that are not terrible, in order. */
  ghost function GoodOnes(infos: map<Id, Info>, ids: seq<Id>, now: int): seq<Address> {
    if ids == [] then []
    else
      var id, rest := ids[|ids| - 1], GoodOnes(infos, ids[..|ids| - 1], now);
      if id in infos && !infos[id].IsTerrible(now) then rest + [infos[id].ToAddress()] else rest
  }

  lemma {:induction false} GoodOnesKept(m: map<Id, Info>, m': map<Id, Info>, ids: seq<Id>, now: int)
    requires m.Keys == m'.Keys && forall id | id in m :: Kept(m, m', id)
    ensures GoodOnes(m, ids, now) == GoodOnes(m', ids, now)
  {
    if ids != [] {
      var id := ids[|ids| - 1];
      GoodOnesKept(m, m', ids[..|ids| - 1], now);
      if id in m { assert Kept(m, m', id); }
    }
  }

  lemma SwapPrefix(s: State, n: nat, j: int)
    requires Inv(s) && n <= j < |s.random|
    ensures CanSwap(s, n, j)
    ensures SwapRandom(s, n, j).random[..n] == s.random[..n]
    ensures SwapRandom(s, n, j).infos.Keys == s.infos.Keys
    ensures forall id | id in s.infos :: Kept(s.infos, SwapRandom(s, n, j).infos, id)
  {
    hide InvL, Indexed, RandomOk;
    RandomPart(s);
    SwapKept(s, n, j);
  }

  lemma RandomPart(s: State)
    requires Inv(s)
    ensures RandomOk(s.infos, s.random)
  {
  }

  lemma SampleStep(s: State, n: nat, j: int, now: int)
    requires Inv(s) && n <= j < |s.random|
    ensures CanSwap(s, n, j) && Inv(SwapRandom(s, n, j))
    ensures var s1 := SwapRandom(s, n, j);
      && s1.random[n] in s1.infos
      && var info := s1.infos[s1.random[n]];
      && GoodOnes(s1.infos, s1.random[..n + 1], now) ==
           GoodOnes(s.infos, s.random[..n], now) + if info.IsTerrible(now) then [] else [info.ToAddress()]
  {
    hide InvL, Indexed, SwapRandom;
    SwapInv(s, {}, 0, n, j);
    SwapPrefix(s, n, j);
    var s1 := SwapRandom(s, n, j);
    GoodOnesKept(s.infos, s1.infos, s1.random[..n], now);
    AtPosition(s1, n);
    assert s1.random[..n + 1][..n] == s1.random[..n];
  }

  /** The sample is the list of good entries met in a prefix of the reshuffled order, and the
      prefix is everything unless the limit was reached. */
  lemma {:induction false} GetAddrSamples(s: State, n: nat, limit: int, draw: nat -> nat, out: seq<Address>, now: int) returns (m: nat)
    requires Inv(s) && n <= |s.random| && out == GoodOnes(s.infos, s.random[..n], now)
    ensures CanGetAddr(s, n, limit, draw, out, now)
    ensures var (s', out') := GetAddr(s, n, limit, draw, out, now);
      && n <= m <= |s'.random| == |s.random|
      && out' == GoodOnes(s'.infos, s'.random[..m], now)
      && (m < |s'.random| ==> |out'| >= limit)
      && (|out| <= limit ==> |out'| <= limit)
    decreases |s.random| - n
  {
    hide InvL, Indexed, SwapRandom, GoodOnes, Pick;
    m := n;
    if n < |s.random| && |out| < limit {
      var j := Pick(draw, n, |s.random|);
      SampleStep(s, n, j, now);
      var s1 := SwapRandom(s, n, j);
      var info := s1.infos[s1.random[n]];
      var out1 := if info.IsTerrible(now) then out else out + [info.ToAddress()];
      assert out1 == GoodOnes(s1.infos, s1.random[..n + 1], now);
      m := GetAddrSamples(s1, n + 1, limit, draw, out1, now);
    }
  }
}
