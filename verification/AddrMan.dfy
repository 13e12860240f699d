/** CAddrMan (src/addrman.cpp, src/addrman.h): the in-place implementation, method by method
    equal to the specification in AddrManSpec. */
module AddrMan {
  import opened AddrManSpec
  import opened AddrManProofs

  class AddrMan {
    const hasher: Hasher
    var nIdCount: int
    var mapInfo: map<Id, Info>
    var mapAddr: map<NetAddr, Id>
    var vRandom: seq<Id>
    const vvTried: array2<Id>
    const vvNew: array2<Id>
    var nTried: int
    var nNew: int
    var nLastGood: int

    /** The occupied slots of a table. */
    static ghost function Table(a: array2<Id>): map<Slot, Id>
      reads a
    {
      map b: nat, p: nat | b < a.Length0 && p < a.Length1 && a[b, p] != NO_ID :: Slot(b, p) := a[b, p]
    }

    ghost predicate Shaped() {
      && vvNew.Length0 == NEW_BUCKETS && vvNew.Length1 == BUCKET_SIZE
      && vvTried.Length0 == TRIED_BUCKETS && vvTried.Length1 == BUCKET_SIZE
      && vvNew != vvTried
    }

    ghost function State(): State
      reads this, vvNew, vvTried
    {
      AddrManSpec.State(hasher, nIdCount, mapInfo, mapAddr, vRandom, Table(vvNew), Table(vvTried), nNew, nTried, nLastGood)
    }

    constructor (hasher: Hasher)
      ensures Shaped() && fresh(vvNew) && fresh(vvTried)
      ensures State() == Empty(hasher)
    {
      this.hasher := hasher;
      nIdCount, mapInfo, mapAddr, vRandom := 0, map[], map[], [];
      vvNew := new Id[NEW_BUCKETS, BUCKET_SIZE]((b, p) => NO_ID);
      vvTried := new Id[TRIED_BUCKETS, BUCKET_SIZE]((b, p) => NO_ID);
      nTried, nNew, nLastGood := 0, 0, 1;
    }

    method SwapRandom(i: int, j: int)
      requires Shaped() && (i != j ==> CanSwap(State(), i, j))
      modifies this`mapInfo, this`vRandom
      ensures State() == AddrManSpec.SwapRandom(old(State()), i, j)
    {
      if i == j { return; }
      var a, b := vRandom[i], vRandom[j];
      mapInfo := mapInfo[a := mapInfo[a].(randomPos := j)];
      mapInfo := mapInfo[b := mapInfo[b].(randomPos := i)];
      vRandom := vRandom[i := b];
      vRandom := vRandom[j := a];
    }

    method Delete(id: Id)
      requires Shaped() && CanDelete(State(), id)
      modifies this`mapInfo, this`vRandom, this`mapAddr, this`nNew
      ensures State() == AddrManSpec.Delete(old(State()), id)
    {
      hide AddrMan.Table, CanSwap;
      SwapRandom(mapInfo[id].randomPos, |vRandom| - 1);
      vRandom := vRandom[..|vRandom| - 1];
      mapAddr := mapAddr - {mapInfo[id].service.addr};
      mapInfo := mapInfo - {id};
      nNew := nNew - 1;
    }

    method ClearNew(t: Slot)
      requires Shaped() && t.bucket < NEW_BUCKETS && t.pos < BUCKET_SIZE && CanClear(State(), t)
      modifies this`mapInfo, this`vRandom, this`mapAddr, this`nNew, vvNew
      ensures State() == AddrManSpec.ClearNew(old(State()), t)
    {
      var id := vvNew[t.bucket, t.pos];
      if id != NO_ID {
        assert t in Table(vvNew) && Table(vvNew)[t] == id;
        mapInfo := mapInfo[id := mapInfo[id].(refCount := mapInfo[id].refCount - 1)];
        vvNew[t.bucket, t.pos] := NO_ID;
        assert Table(vvNew) == old(Table(vvNew)) - {t};
        assert State() == DropRef(old(State()), t);
        if mapInfo[id].refCount == 0 { Delete(id); }
      }
    }
  
    /** Takes id out of slot t, if it is there. */
    method LeaveSlot(id: Id, t: Slot)
      requires Shaped() && t.bucket < NEW_BUCKETS && t.pos < BUCKET_SIZE && id in mapInfo && id != NO_ID
      modifies this`mapInfo, vvNew
      ensures var table, info := old(Table(vvNew)), old(mapInfo[id]);
        if t in table && table[t] == id then
          Table(vvNew) == table - {t} && mapInfo == old(mapInfo)[id := info.(refCount := info.refCount - 1)]
        else Table(vvNew) == table && mapInfo == old(mapInfo)
    {
      if vvNew[t.bucket, t.pos] == id {
        vvNew[t.bucket, t.pos] := NO_ID;
        mapInfo := mapInfo[id := mapInfo[id].(refCount := mapInfo[id].refCount - 1)];
      }
    }

    /** Removes id from every "new" bucket, looking only at its hashed position in each. */
    method LeaveNewBuckets(id: Id)
      requires Shaped() && id in mapInfo && id != NO_ID && NewSlotsOk(hasher, mapInfo, Table(vvNew))
      modifies this`mapInfo, this`nNew, vvNew
      ensures State() == LeaveNew(old(State()), id)
    {
      hide NewSlotsOk, SlotsBelow, AddrMan.Table;
      ghost var table := Table(vvNew);
      var info := mapInfo[id];
      AllBuckets(hasher, mapInfo, table, id);
      for bucket := 0 to NEW_BUCKETS
        invariant Table(vvTried) == old(Table(vvTried)) && nNew == old(nNew)
        invariant Table(vvNew) == table - SlotsBelow(table, id, bucket)
        invariant mapInfo == old(mapInfo)[id := info.(refCount := info.refCount - |SlotsBelow(table, id, bucket)|)]
      {
        var t := Slot(bucket, hasher.Position(true, bucket, mapInfo[id].service));
        NextBucket(hasher, old(mapInfo), table, id, bucket);
        WithoutSlot(table, SlotsBelow(table, id, bucket), t, id);
        LeaveSlot(id, t);
      }
      nNew := nNew - 1;
    }
  
    /** Enters id in an empty "new" slot. */
    method PlaceNew(t: Slot, id: Id)
      requires Shaped() && t.bucket < NEW_BUCKETS && t.pos < BUCKET_SIZE && id in mapInfo && id != NO_ID
      modifies this`mapInfo, vvNew
      ensures State() == AddrManSpec.PlaceNew(old(State()), t, id)
    {
      mapInfo := mapInfo[id := mapInfo[id].(refCount := mapInfo[id].refCount + 1)];
      vvNew[t.bucket, t.pos] := id;
      assert Table(vvNew) == old(Table(vvNew))[t := id];
    }

    method LeaveTried(t: Slot) returns (e: Id)
      requires Shaped() && t in Table(vvTried) && Table(vvTried)[t] in mapInfo
      modifies this`mapInfo, this`nTried, vvTried
      ensures e == old(Table(vvTried))[t]
      ensures State() == AddrManSpec.LeaveTried(old(State()), t)
    {
      e := vvTried[t.bucket, t.pos];
      mapInfo := mapInfo[e := mapInfo[e].(inTried := false)];
      vvTried[t.bucket, t.pos] := NO_ID;
      nTried := nTried - 1;
      assert Table(vvTried) == old(Table(vvTried)) - {t};
    }

    method EnterTried(t: Slot, id: Id)
      requires Shaped() && t.bucket < TRIED_BUCKETS && t.pos < BUCKET_SIZE && id in mapInfo && id != NO_ID
      modifies this`mapInfo, this`nTried, vvTried
      ensures State() == AddrManSpec.EnterTried(old(State()), t, id)
    {
      vvTried[t.bucket, t.pos] := id;
      nTried := nTried + 1;
      mapInfo := mapInfo[id := mapInfo[id].(inTried := true)];
      assert Table(vvTried) == old(Table(vvTried))[t := id];
    }

    /** Moves the tried entry in slot t back to the "new" table. */
    method Evict(t: Slot)
      requires Shaped() && CanEvict(State(), t) && State().triedTable[t] != NO_ID
      modifies this`mapInfo, this`vRandom, this`mapAddr, this`nNew, this`nTried, vvNew, vvTried
      ensures State() == AddrManSpec.Evict(old(State()), t)
    {
      hide AddrManSpec.ClearNew, CanClear, AddrMan.Table;
      var e := LeaveTried(t);
      var u := hasher.NewSlot(mapInfo[e].service, mapInfo[e].source);
      ClearNew(u);
      assert mapInfo[e].refCount == 0;
      PlaceNew(u, e);
      nNew := nNew + 1;
    }

    /** Moves entry id from the "new" table to the tried table. */
    method MakeTried(id: Id)
      requires Shaped() && Sound(State()) && id in mapInfo && !mapInfo[id].inTried
      modifies this`mapInfo, this`vRandom, this`mapAddr, this`nNew, this`nTried, vvNew, vvTried
      ensures Sound(State()) && (old(Indexed(State())) ==> Indexed(State())) && CanMakeTried(old(State()), id)
      ensures State() == AddrManSpec.MakeTried(old(State()), id)
    {
      MakeTriedInv(State(), id);
      Real(State());
      hide InvL, Indexed, CanEvict, AddrManSpec.Evict, AddrMan.Table;
      LeaveNewBuckets(id);
      var t := hasher.TriedSlot(mapInfo[id].service);
      var occupied := Occupied(t);
      if occupied { Evict(t); }
      EnterTried(t, id);
    }

    method Occupied(t: Slot) returns (b: bool)
      requires Shaped() && t.bucket < TRIED_BUCKETS && t.pos < BUCKET_SIZE
      ensures b == (t in Table(vvTried))
    {
      b := vvTried[t.bucket, t.pos] != NO_ID;
    }
  
    method Find(a: NetAddr) returns (id: Id)
      ensures id == AddrManSpec.Find(State(), a)
    {
      if a !in mapAddr { return NO_ID; }
      if mapAddr[a] in mapInfo { return mapAddr[a]; }
      return NO_ID;
    }

    /** How many buckets a search that starts at bucket rnd visits before bucket b. */
    static function Offset(b: nat, rnd: nat): nat { (b - rnd) % NEW_BUCKETS }

    static lemma Visit(b: nat, rnd: nat, n: nat)
      requires b < NEW_BUCKETS && n < NEW_BUCKETS
      ensures Offset(b, rnd) == n <==> b == (n + rnd) % NEW_BUCKETS
    {
    }

    /** Searches the "new" buckets for id, starting at a random one.  Under the invariant
        the search succeeds. */
    method FindBucket(id: Id, rnd: nat) returns (bucket: int)
      requires Shaped() && Sound(State()) && id in mapInfo && !mapInfo[id].inTried
      ensures 0 <= bucket < NEW_BUCKETS
      ensures vvNew[bucket, hasher.Position(true, bucket, mapInfo[id].service)] == id
    {
      hide InvL, Indexed;
      ghost var t := InSomeBucket(State(), id);
      hide Offset;
      bucket := -1;
      for n := 0 to NEW_BUCKETS
        invariant forall b: nat | b < NEW_BUCKETS && Offset(b, rnd) < n ::
                    vvNew[b, hasher.Position(true, b, mapInfo[id].service)] != id
      {
        forall b: nat | b < NEW_BUCKETS ensures Offset(b, rnd) == n <==> b == (n + rnd) % NEW_BUCKETS { Visit(b, rnd, n); }
        var b := (n + rnd) % NEW_BUCKETS;
        if vvNew[b, hasher.Position(true, b, mapInfo[id].service)] == id { return b; }
      }
      Visited(t.bucket, rnd);
      assert false;
    }

    static lemma Visited(b: nat, rnd: nat)
      ensures Offset(b, rnd) < NEW_BUCKETS
    {
    }

    method Good(svc: Service, time: int, rnd: nat)
      requires Shaped() && Sound(State())
      modifies this, vvNew, vvTried
      ensures Sound(State()) && (old(Indexed(State())) ==> Indexed(State())) && CanGood(old(State()), svc, time)
      ensures State() == AddrManSpec.Good(old(State()), svc, time)
    {
      hide InvL, Indexed, CanMakeTried, AddrManSpec.MakeTried, AddrMan.Table;
      GoodInv(State(), svc, time);
      LastGoodInv(State(), time);
      nLastGood := time;
      var id := Find(svc.addr);
      if id == NO_ID { return; }
      if mapInfo[id].service != svc { return; }
      ghost var before := State();
      SetInfoInv(before, id, mapInfo[id].(lastSuccess := time, lastTry := time, attempts := 0));
      mapInfo := mapInfo[id := mapInfo[id].(lastSuccess := time, lastTry := time, attempts := 0)];
      assert State() == Promoted(before, id, time);
      if mapInfo[id].inTried { return; }
      var bucket := FindBucket(id, rnd);
      MakeTried(id);
    }

    method Attempt(svc: Service, countFailure: bool, time: int)
      requires Shaped() && Sound(State())
      modifies this
      ensures Sound(State()) && (old(Indexed(State())) ==> Indexed(State())) && State() == AddrManSpec.Attempt(old(State()), svc, countFailure, time)
    {
      hide InvL, Indexed, AddrMan.Table;
      AttemptInv(State(), svc, countFailure, time);
      var id := Find(svc.addr);
      if id == NO_ID { return; }
      if mapInfo[id].service != svc { return; }
      var info := mapInfo[id].(lastTry := time);
      if countFailure && info.lastCountAttempt < nLastGood {
        info := info.(lastCountAttempt := time);
        info := info.(attempts := info.attempts + 1);
      }
      mapInfo := mapInfo[id := info];
    }

    method Connected(svc: Service, time: int)
      requires Shaped() && Sound(State())
      modifies this
      ensures Sound(State()) && (old(Indexed(State())) ==> Indexed(State())) && State() == AddrManSpec.Connected(old(State()), svc, time)
    {
      hide InvL, Indexed, AddrMan.Table;
      ConnectedInv(State(), svc, time);
      var id := Find(svc.addr);
      if id == NO_ID { return; }
      if mapInfo[id].service != svc { return; }
      if time - mapInfo[id].time > 20 * 60 { mapInfo := mapInfo[id := mapInfo[id].(time := U32(time))]; }
    }

    method SetServices(svc: Service, services: bv64)
      requires Shaped() && Sound(State())
      modifies this
      ensures Sound(State()) && (old(Indexed(State())) ==> Indexed(State())) && State() == AddrManSpec.SetServices(old(State()), svc, services)
    {
      hide InvL, Indexed, AddrMan.Table;
      SetServicesInv(State(), svc, services);
      var id := Find(svc.addr);
      if id == NO_ID { return; }
      if mapInfo[id].service != svc { return; }
      mapInfo := mapInfo[id := mapInfo[id].(services := services)];
    }
  
    /** The stochastic test: passes with probability 1 / 2^refCount. */
    method Lucky(refCount: int, rnd: nat) returns (b: bool)
      ensures b == (rnd % Factor(refCount) == 0)
    {
      var factor, n := 1, 0;
      while n < refCount
        invariant factor == Factor(n) && 0 <= n && (n <= refCount || n == 0)
      {
        factor, n := factor * 2, n + 1;
      }
      assert factor == Factor(refCount);
      return rnd % factor == 0;
    }

    /** Looks for a slot for entry id. */
    method Settle(id: Id, source: NetAddr, now: int)
      requires Shaped() && CanSettle(State(), id, source, now) && id != NO_ID
      modifies this, vvNew
      ensures State() == AddrManSpec.Settle(old(State()), id, source, now)
    {
      hide AddrManSpec.ClearNew, CanClear, AddrManSpec.Delete, CanDelete;
      var t := hasher.NewSlot(mapInfo[id].service, source);
      var holder := vvNew[t.bucket, t.pos];
      assert holder == if t in Table(vvNew) then Table(vvNew)[t] else NO_ID;
      hide AddrMan.Table;
      if holder != id {
        var insert := holder == NO_ID;
        if !insert {
          var existing := mapInfo[holder];
          if existing.IsTerrible(now) || (existing.refCount > 1 && mapInfo[id].refCount == 0) {
            insert := true;
          }
        }
        if insert {
          ClearNew(t);
          PlaceNew(t, id);
        } else if mapInfo[id].refCount == 0 {
          Delete(id);
        }
      }
    }
  
    /** The first half of Add_ for a known entry. */
    method Refresh(id: Id, a: Address, penalty: int, now: int, rnd: nat) returns (wants: bool)
      requires id in mapInfo
      modifies this`mapInfo
      ensures var info := Refreshed(old(mapInfo)[id], a, penalty, now);
              State() == SetInfo(old(State()), id, info) && wants == WantsSlot(info, a, rnd)
    {
      hide AddrMan.Table, Factor;
      var info := Refreshed(mapInfo[id], a, penalty, now);
      mapInfo := mapInfo[id := info];
      if a.time == 0 || (info.time != 0 && a.time <= info.time) { return false; }
      if info.inTried { return false; }
      if info.refCount == NEW_BUCKETS_PER_ADDRESS { return false; }
      wants := Lucky(info.refCount, rnd);
    }

    /** The first half of Add_ for an unknown entry. */
    method Register(a: Address, source: NetAddr, penalty: int) returns (id: Id)
      modifies this`nIdCount, this`mapInfo, this`mapAddr, this`vRandom, this`nNew
      ensures id == Id(old(nIdCount)) && State() == Created(old(State()), a, source, penalty)
    {
      hide AddrMan.Table;
      id := Create(a, source);
      mapInfo := mapInfo[id := mapInfo[id].(time := U32(Max(0, mapInfo[id].time - penalty)))];
      nNew := nNew + 1;
    }

    method Add(a: Address, routable: bool, source: NetAddr, penalty: int, now: int, rnd: nat) returns (isNew: bool)
      requires Shaped() && Sound(State())
      modifies this, vvNew
      ensures Sound(State()) && (old(Indexed(State())) ==> Indexed(State())) && CanAdd(old(State()), a, routable, source, penalty, now, rnd)
      ensures State() == AddrManSpec.Add(old(State()), a, routable, source, penalty, now, rnd)
      ensures isNew == (routable && AddrManSpec.Find(old(State()), a.service.addr) == NO_ID)
    {
      hide InvL, Indexed, AddrMan.Table, CanSettle, AddrManSpec.Settle, WantsSlot, AddrManSpec.Create;
      AddInv(State(), a, routable, source, penalty, now, rnd);
      Real(State());
      if !routable { return false; }
      var id := Find(a.service.addr);
      var p := if a.service.addr == source then 0 else penalty;
      if id != NO_ID {
        isNew := false;
        var wants := Refresh(id, a, p, now, rnd);
        if !wants { return; }
      } else {
        id := Register(a, source, p);
        isNew := true;
      }
      Settle(id, source, now);
    }

    method Create(a: Address, source: NetAddr) returns (id: Id)
      modifies this`nIdCount, this`mapInfo, this`mapAddr, this`vRandom
      ensures id == Id(old(nIdCount)) && State() == AddrManSpec.Create(old(State()), a, source)
    {
      id := Id(nIdCount);
      nIdCount := nIdCount + 1;
      mapInfo := mapInfo[id := Info(a.service, a.services, a.time, source, 0, 0, 0, 0, 0, false, |vRandom|)];
      mapAddr := mapAddr[a.service.addr := id];
      vRandom := vRandom + [id];
    }

    /** The sampling loop: one step of a Fisher-Yates shuffle per address looked at. */
    method Sample(limit: int, draw: nat -> nat, now: int) returns (out: seq<Address>)
      requires Shaped() && CanGetAddr(State(), 0, limit, draw, [], now)
      modifies this
      ensures (State(), out) == AddrManSpec.GetAddr(old(State()), 0, limit, draw, [], now)
    {
      hide AddrMan.Table, AddrManSpec.SwapRandom, CanSwap;
      out := [];
      var n := 0;
      while n < |vRandom| && |out| < limit
        invariant CanGetAddr(State(), n, limit, draw, out, now)
        invariant AddrManSpec.GetAddr(State(), n, limit, draw, out, now) == AddrManSpec.GetAddr(old(State()), 0, limit, draw, [], now)
        decreases |vRandom| - n
      {
        SwapRandom(n, Pick(draw, n, |vRandom|));
        var info := mapInfo[vRandom[n]];
        if !info.IsTerrible(now) { out := out + [info.ToAddress()]; }
        n := n + 1;
      }
    }

    /** A random sample of the good entries. */
    method GetAddr(draw: nat -> nat, now: int) returns (out: seq<Address>)
      requires Shaped() && Sound(State())
      modifies this
      ensures Sound(State()) && (old(Indexed(State())) ==> Indexed(State())) && Runs(old(State()), OpGetAddr(draw, now))
      ensures State() == Step(old(State()), OpGetAddr(draw, now))
      ensures out == Sampled(old(State()), draw, now)
    {
      hide InvL, Indexed, AddrMan.Table;
      StepInv(State(), OpGetAddr(draw, now));
      var limit := GETADDR_MAX_PCT * |vRandom| / 100;
      if limit > GETADDR_MAX { limit := GETADDR_MAX; }
      out := Sample(limit, draw, now);
    }
  }
}
