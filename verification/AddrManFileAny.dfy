/** What loading makes of an arbitrary peers.dat: unless a count is negative, all that keeps every
    later call from failing an assertion; the index of addresses is right only if no address comes
    twice. */
module AddrManFileAny {
  import opened AddrManSpec
  import opened AddrManProofs
  import opened AddrManFileSpec
  import opened AddrManFileProofs

  // ------------------------------------------------------------------ invariant

  /** Reference counts are true counts, and at most 8 for an entry that is not tried. */
  ghost predicate Refs(infos: map<Id, Info>, table: map<Slot, Id>) {
    forall id | id in infos ::
      infos[id].refCount == |SlotsOf(table, id)| && (!infos[id].inTried ==> infos[id].refCount <= NEW_BUCKETS_PER_ADDRESS)
  }

  /** All of the invariant but the index of addresses; u new and w tried entries are missing from
      the counters. */
  ghost predicate Core(s: State, u: int, w: int) {
    && Loaded(s) && IdRange(s.infos, s.idCount) && NewSlotsOk(s.hasher, s.infos, s.newTable) && Refs(s.infos, s.newTable)
    && TriedOk(s.hasher, s.infos, s.triedTable)
    && s.newCount == |NewIds(s.infos)| - u && s.triedCount == |TriedIds(s.infos)| - w
  }

  /** Every address of an entry is in the index, and leads to an entry with that address. */
  ghost predicate Covered(infos: map<Id, Info>, ids: map<NetAddr, Id>) {
    && (forall id | id in infos :: infos[id].service.addr in ids)
    && forall a | a in ids :: ids[a] in infos && infos[ids[a]].service.addr == a
  }

  // -------------------------------------------------------------------- loading

  lemma NewRefs(infos: map<Id, Info>, table: map<Slot, Id>, id: Id, info: Info)
    requires Refs(infos, table) && id !in infos && SlotsOf(table, id) == {} && info.refCount == 0
    ensures Refs(infos[id := info], table)
  {
    hide SlotsOf;
  }

  lemma AppendNew(s: State, v: Saved, u: int, w: int)
    requires Core(s, u, w) && Covered(s.infos, s.ids)
    ensures Core(Append(s, v, false), u + 1, w) && Covered(Append(s, v, false).infos, Append(s, v, false).ids)
  {
    hide Loaded, NewSlotsOk, Refs, TriedOk, NewIds, TriedIds;
    var id, info := Id(s.idCount), Restored(v, |s.random|, false);
    AppendLoaded(s, v, false);
    NewEntryTables(s.hasher, s.infos, s.newTable, s.triedTable, id, info);
    NewRefs(s.infos, s.newTable, id, info);
    FreshId(s.infos, id);
  }

  lemma PlaceRefs(infos: map<Id, Info>, table: map<Slot, Id>, t: Slot, id: Id)
    requires Refs(infos, table) && t !in table && id in infos && infos[id].refCount < NEW_BUCKETS_PER_ADDRESS
    ensures Refs(infos[id := infos[id].(refCount := infos[id].refCount + 1)], table[t := id])
  {
    hide SlotsOf;
    var infos' := infos[id := infos[id].(refCount := infos[id].refCount + 1)];
    forall k | k in infos' ensures infos'[k].refCount == |SlotsOf(table[t := id], k)| { SlotsAdded(table, t, id, k); }
  }

  lemma PlaceTried(h: Hasher, infos: map<Id, Info>, table: map<Slot, Id>, id: Id, n: int)
    requires TriedOk(h, infos, table) && id in infos && !infos[id].inTried
    ensures var infos' := infos[id := infos[id].(refCount := n)];
            TriedOk(h, infos', table) && NewIds(infos') == NewIds(infos) && TriedIds(infos') == TriedIds(infos)
  {
  }

  lemma Place(s: State, t: Slot, id: Id, u: int, w: int)
    requires Core(s, u, w) && Covered(s.infos, s.ids) && t !in s.newTable && id in s.infos && !s.infos[id].inTried
    requires s.infos[id].refCount < NEW_BUCKETS_PER_ADDRESS
    requires t.bucket < NEW_BUCKETS && t.pos == s.hasher.Position(true, t.bucket, s.infos[id].service)
    ensures Core(PlaceNew(s, t, id), u, w) && Covered(PlaceNew(s, t, id).infos, s.ids)
  {
    hide Loaded, NewSlotsOk, Refs, TriedOk, NewIds, TriedIds, Covered;
    var n := s.infos[id].refCount + 1;
    PlaceCovered(s.infos, s.ids, id, n);
    PlaceLoaded(s, t, id);
    PlaceNewSlots(s.hasher, s.infos, s.newTable, t, id, n);
    PlaceRefs(s.infos, s.newTable, t, id);
    PlaceTried(s.hasher, s.infos, s.triedTable, id, n);
  }

  lemma PlaceCovered(infos: map<Id, Info>, ids: map<NetAddr, Id>, id: Id, n: int)
    requires Covered(infos, ids) && id in infos
    ensures Covered(infos[id := infos[id].(refCount := n)], ids)
  {
  }

  ghost predicate NoneTried(s: State) { forall id | id in s.infos :: !s.infos[id].inTried }

  lemma NewCore(s: State, v: Saved, usable: bool, u: int, w: int)
    requires Core(s, u, w) && Covered(s.infos, s.ids) && NoneTried(s)
    ensures var r := LoadNew(s, v, usable);
            Core(r, u + 1, w) && Covered(r.infos, r.ids) && NoneTried(r) && r.idCount == s.idCount + 1 && r.hasher == s.hasher
  {
    hide Core, Covered;
    AppendNew(s, v, u, w);
    var s1, t := Append(s, v, false), s.hasher.NewSlot(v.service, v.source);
    if !usable && t !in s1.newTable { Place(s1, t, Id(s.idCount), u + 1, w); }
  }

  lemma {:induction false} NewsCore(s: State, news: seq<Saved>, usable: bool, u: int, w: int)
    requires Core(s, u, w) && Covered(s.infos, s.ids) && NoneTried(s)
    ensures var r := LoadNews(s, news, usable);
            Core(r, u + |news|, w) && Covered(r.infos, r.ids) && NoneTried(r) && r.idCount == s.idCount + |news| && r.hasher == s.hasher
  {
    hide Core, Covered, NoneTried, LoadNew;
    if news != [] {
      NewsCore(s, news[..|news| - 1], usable, u, w);
      NewCore(LoadNews(s, news[..|news| - 1], usable), news[|news| - 1], usable, u + |news| - 1, w);
    }
  }

  lemma TriedEntry(h: Hasher, m: map<Id, Info>, newTable: map<Slot, Id>, table: map<Slot, Id>, id: Id, info: Info)
    requires NewSlotsOk(h, m, newTable) && TriedOk(h, m, table) && id !in m
    requires info.inTried && info.refCount == 0 && h.TriedSlot(info.service) !in table
    ensures NewSlotsOk(h, m[id := info], newTable) && TriedOk(h, m[id := info], table[h.TriedSlot(info.service) := id])
    ensures NewIds(m[id := info]) == NewIds(m) && TriedIds(m[id := info]) == TriedIds(m) + {id} && id !in TriedIds(m)
    ensures SlotsOf(newTable, id) == {}
  {
  }

  lemma AppendTried(s: State, v: Saved, u: int, w: int)
    requires Core(s, u, w) && Covered(s.infos, s.ids)
    ensures Core(LoadTried(s, v), u, w + 1) && Covered(LoadTried(s, v).infos, LoadTried(s, v).ids)
  {
    hide Loaded, NewSlotsOk, Refs, TriedOk, NewIds, TriedIds;
    var t, id, info := s.hasher.TriedSlot(v.service), Id(s.idCount), Restored(v, |s.random|, true);
    if t !in s.triedTable {
      AppendLoaded(s, v, true);
      TriedEntry(s.hasher, s.infos, s.newTable, s.triedTable, id, info);
      NewRefs(s.infos, s.newTable, id, info);
      LoadedFrame(Append(s, v, true), LoadTried(s, v));
    } else {
      LoadedFrame(s, LoadTried(s, v));
    }
  }

  ghost predicate LoadedSame(s: State, r: State) { r.infos == s.infos && r.random == s.random && r.idCount == s.idCount }

  lemma LoadedFrame(s: State, r: State)
    requires LoadedSame(s, r)
    ensures Loaded(s) <==> Loaded(r)
  {
  }

  /** The entries read first are new, the others tried. */
  ghost predicate Split(s: State, count: nat) { forall id | id in s.infos :: s.infos[id].inTried <==> id.n >= count }

  lemma TriedSplit(s: State, v: Saved, count: nat)
    requires Split(s, count) && s.idCount >= count
    ensures Split(LoadTried(s, v), count) && LoadTried(s, v).idCount >= count && LoadTried(s, v).hasher == s.hasher
  {
  }

  lemma {:induction false} TriedsCore(s: State, trieds: seq<Saved>, count: nat, u: int, w: int)
    requires Core(s, u, w) && Covered(s.infos, s.ids) && Split(s, count) && s.idCount >= count
    ensures var r := LoadTrieds(s, trieds);
            Core(r, u, w + |trieds|) && Covered(r.infos, r.ids) && Split(r, count) && r.idCount >= count && r.hasher == s.hasher
  {
    hide Core, Covered, Split, LoadTried;
    if trieds != [] {
      var s1, v := LoadTrieds(s, trieds[..|trieds| - 1]), trieds[|trieds| - 1];
      TriedsCore(s, trieds[..|trieds| - 1], count, u, w);
      AppendTried(s1, v, u, w + |trieds| - 1);
      TriedSplit(s1, v, count);
    }
  }

  lemma SlotCore(s: State, bucket: nat, index: int, count: nat, usable: bool, u: int, w: int)
    requires Core(s, u, w) && Covered(s.infos, s.ids) && Split(s, count) && (usable ==> bucket < NEW_BUCKETS)
    ensures var r := LoadSlot(s, bucket, index, count, usable); Core(r, u, w) && Covered(r.infos, r.ids) && Split(r, count) && r.hasher == s.hasher
  {
    hide Core, Covered;
    var id := Id(index);
    if 0 <= index < count && id in s.infos {
      var t := Slot(bucket, s.hasher.Position(true, bucket, s.infos[id].service));
      if usable && t !in s.newTable && s.infos[id].refCount < NEW_BUCKETS_PER_ADDRESS { Place(s, t, id, u, w); }
    }
  }

  lemma {:induction false} BucketCore(s: State, bucket: nat, list: seq<int>, count: nat, usable: bool, u: int, w: int)
    requires Core(s, u, w) && Covered(s.infos, s.ids) && Split(s, count) && (usable ==> bucket < NEW_BUCKETS)
    ensures var r := LoadBucket(s, bucket, list, count, usable); Core(r, u, w) && Covered(r.infos, r.ids) && Split(r, count) && r.hasher == s.hasher
  {
    hide Core, Covered, LoadSlot, Split;
    if list != [] {
      BucketCore(s, bucket, list[..|list| - 1], count, usable, u, w);
      SlotCore(LoadBucket(s, bucket, list[..|list| - 1], count, usable), bucket, list[|list| - 1], count, usable, u, w);
    }
  }

  lemma {:induction false} BucketsCore(s: State, slots: seq<seq<int>>, count: nat, usable: bool, u: int, w: int)
    requires Core(s, u, w) && Covered(s.infos, s.ids) && Split(s, count) && (usable ==> |slots| <= NEW_BUCKETS)
    ensures var r := LoadBuckets(s, slots, count, usable); Core(r, u, w) && Covered(r.infos, r.ids) && Split(r, count) && r.hasher == s.hasher
  {
    hide Core, Covered, LoadBucket, Split;
    if slots != [] {
      var n := |slots| - 1;
      BucketsCore(s, slots[..n], count, usable, u, w);
      BucketCore(LoadBuckets(s, slots[..n], count, usable), n, slots[n], count, usable, u, w);
    }
  }

  lemma StartCore(f: File)
    requires f.newCount >= 0
    ensures Core(Start(f), -f.newCount, -f.triedCount) && Covered(Start(f).infos, Start(f).ids) && NoneTried(Start(f))
  {
    assert NewIds(Start(f).infos) == {} && TriedIds(Start(f).infos) == {};
  }

  lemma AllNew(s: State, count: nat)
    requires NoneTried(s) && Loaded(s) && s.idCount == count
    ensures Split(s, count)
  {
  }

  /** The tried entries that a negative count leaves missing from the counter. */
  function Missing(f: File): nat { if f.triedCount < 0 then -f.triedCount else 0 }

  ghost predicate Readable(f: File) { Framed(f) && !Rejects(f) }

  /** Before entries without a slot are deleted. */
  lemma PositionsCore(f: File)
    requires Readable(f) && f.newCount >= 0
    ensures Core(Positions(f), 0, Missing(f)) && Covered(Positions(f).infos, Positions(f).ids)
  {
    hide Core, Covered, LoadNews, LoadTrieds, LoadBuckets, NoneTried, Split, Loaded, Start, FlipBit30;
    var n := |f.news|;
    StartCore(f);
    StartId(f);
    NewsCore(Start(f), f.news, Usable(f), -n, -f.triedCount);
    var s1 := LoadNews(Start(f), f.news, Usable(f));
    assert Loaded(s1) by { CoreLoaded(s1, 0, -f.triedCount); }
    AllNew(s1, n);
    TriedsCore(s1, f.trieds, n, 0, -f.triedCount);
    BucketsCore(Entries(f), f.slots, n, Usable(f), 0, Missing(f));
  }

  lemma StartId(f: File)
    ensures Start(f).idCount == LowId(f)
  {
  }

  lemma CoreLoaded(s: State, u: int, w: int)
    requires Core(s, u, w)
    ensures Loaded(s) && IdRange(s.infos, s.idCount)
  {
  }

  // -------------------------------------------------------------------- pruning

  predicate Placed(i: Info) { i.inTried || i.refCount != 0 }

  lemma NoSlot(m: map<Id, Info>, table: map<Slot, Id>, id: Id)
    requires Refs(m, table) && id in m && !Placed(m[id])
    ensures forall t | t in table :: table[t] != id
  {
    assert SlotsOf(table, id) == {};
    assert forall t | t in table && table[t] == id :: t in SlotsOf(table, id);
  }

  lemma RemovedTables(h: Hasher, m: map<Id, Info>, m': map<Id, Info>, newTable: map<Slot, Id>, triedTable: map<Slot, Id>, id: Id)
    requires NewSlotsOk(h, m, newTable) && Refs(m, newTable) && TriedOk(h, m, triedTable) && id in m && !Placed(m[id])
    requires m'.Keys == m.Keys - {id} && forall k | k in m && k != id :: Kept(m, m', k)
    ensures NewSlotsOk(h, m', newTable) && TriedOk(h, m', triedTable) && Refs(m', newTable)
    ensures NewIds(m') == NewIds(m) - {id} && TriedIds(m') == TriedIds(m) && id in NewIds(m)
  {
    hide SlotsOf;
    NoSlot(m, newTable, id);
  }

  lemma DeleteCore(s: State, id: Id, u: int, w: int)
    requires Core(s, u, w) && id in s.infos && !Placed(s.infos[id])
    ensures CanDelete(s, id) && Core(Delete(s, id), u, w)
  {
    hide NewSlotsOk, Refs, TriedOk, NewIds, TriedIds, RandomOk, SwapRandom;
    DeleteLoaded(s, id);
    DeleteKept(s, id);
    DeletedCounts(s, id);
    RemovedTables(s.hasher, s.infos, Delete(s, id).infos, s.newTable, s.triedTable, id);
  }

  lemma DeletedCounts(s: State, id: Id)
    requires CanDelete(s, id)
    ensures Delete(s, id).newCount == s.newCount - 1 && Delete(s, id).triedCount == s.triedCount
    ensures Delete(s, id).ids == s.ids - {s.infos[id].service.addr} && Delete(s, id).idCount == s.idCount
  {
  }

  /** r is what is left of p when the entries with ids below n that got no slot are gone, and with
      them their addresses from the index. */
  ghost predicate Left(p: State, r: State, n: nat) {
    && (forall id | id in p.infos :: id in r.infos <==> Placed(p.infos[id]) || id.n >= n)
    && r.infos.Keys <= p.infos.Keys && (forall id | id in r.infos :: Kept(p.infos, r.infos, id))
    && (forall a | a in p.ids :: a in r.ids <==> forall id | id in p.infos && !Placed(p.infos[id]) && id.n < n :: p.infos[id].service.addr != a)
    && r.ids.Keys <= p.ids.Keys && forall a | a in r.ids :: r.ids[a] == p.ids[a]
  }

  lemma LeftNext(p: State, r: State, n: nat, r': State)
    requires Left(p, r, n)
    requires forall id | id in p.infos :: 0 <= id.n
    requires var id := Id(n);
             if id in r.infos && !Placed(r.infos[id]) then
               r'.infos.Keys == r.infos.Keys - {id} && r'.ids == r.ids - {r.infos[id].service.addr}
               && forall k | k in r.infos && k != id :: Kept(r.infos, r'.infos, k)
             else r' == r
    ensures Left(p, r', n + 1)
  {
    var id := Id(n);
    forall k | k in p.infos ensures k.n == n <==> k == id {}
    if id in r.infos && !Placed(r.infos[id]) {
      LeftIds(p, r, n, r', id);
    } else {
      assert id in p.infos ==> Placed(p.infos[id]);
    }
  }

  lemma LeftIds(p: State, r: State, n: nat, r': State, id: Id)
    requires Left(p, r, n) && id == Id(n) && id in r.infos && !Placed(r.infos[id]) && r'.ids == r.ids - {r.infos[id].service.addr}
    ensures forall a | a in p.ids :: a in r'.ids <==> forall k | k in p.infos && !Placed(p.infos[k]) && k.n < n + 1 :: p.infos[k].service.addr != a
  {
    assert Kept(p.infos, r.infos, id);
    forall a | a in p.ids
      ensures a in r'.ids <==> forall k | k in p.infos && !Placed(p.infos[k]) && k.n < n + 1 :: p.infos[k].service.addr != a
    {
      if a == r.infos[id].service.addr { assert p.infos[id].service.addr == a; }
      forall k | k in p.infos && k.n == n ensures k == id {}
    }
  }

  lemma {:induction false} PruneLeaves(p: State, n: nat, w: int)
    requires Core(p, 0, w)
    ensures Loaded(p) && Core(Prune(p, 0, n), 0, w) && Left(p, Prune(p, 0, n), n)
    decreases n
  {
    hide Core, Left, Delete, RandomOk;
    CoreLoaded(p, 0, w);
    if n == 0 {
      assert Left(p, p, 0) by { LeftAll(p); }
    } else {
      PruneLeaves(p, n - 1, w);
      var r, id := Prune(p, 0, n - 1), Id(n - 1);
      if id in r.infos && !Placed(r.infos[id]) {
        DeleteCore(r, id, 0, w);
        DeleteKept(r, id);
        DeletedCounts(r, id);
      }
      LeftNext(p, r, n - 1, Prune(p, 0, n));
    }
  }

  lemma LeftAll(p: State)
    requires IdRange(p.infos, p.idCount)
    ensures Left(p, p, 0)
  {
  }

  // --------------------------------------------------------------------- result

  /** The address of an entry that got a slot is the address of no other entry of the file. */
  ghost predicate Unambiguous(p: State) {
    forall id, id' | id in p.infos && id' in p.infos && id != id' && Placed(p.infos[id]) ::
      p.infos[id].service.addr != p.infos[id'].service.addr
  }

  lemma IndexIff(p: State, r: State)
    requires IdRange(p.infos, p.idCount) && Covered(p.infos, p.ids) && Left(p, r, p.idCount) && r.idCount == p.idCount
    ensures IdsOk(r.infos, r.ids) <==> Unambiguous(p)
  {
    if Unambiguous(p) { IndexRight(p, r); }
    if IdsOk(r.infos, r.ids) { IndexWrong(p, r); }
  }

  lemma IndexRight(p: State, r: State)
    requires IdRange(p.infos, p.idCount) && Covered(p.infos, p.ids) && Left(p, r, p.idCount) && r.idCount == p.idCount && Unambiguous(p)
    ensures IdsOk(r.infos, r.ids)
  {
    hide RandomOk;
    forall id | id in r.infos ensures r.infos[id].service.addr in r.ids && r.ids[r.infos[id].service.addr] == id {
      assert Kept(p.infos, r.infos, id) && Placed(p.infos[id]);
      var a := p.infos[id].service.addr;
      assert a in p.ids && p.ids[a] in p.infos && p.infos[p.ids[a]].service.addr == a;
    }
    forall a | a in r.ids ensures r.ids[a] in r.infos && r.infos[r.ids[a]].service.addr == a {
      var id := p.ids[a];
      assert id in p.infos && p.infos[id].service.addr == a;
      assert id in r.infos;
      assert Kept(p.infos, r.infos, id);
    }
  }

  lemma IndexWrong(p: State, r: State)
    requires IdRange(p.infos, p.idCount) && Covered(p.infos, p.ids) && Left(p, r, p.idCount) && r.idCount == p.idCount && IdsOk(r.infos, r.ids)
    ensures Unambiguous(p)
  {
    hide RandomOk;
    forall id, id' | id in p.infos && id' in p.infos && id != id' && Placed(p.infos[id])
      ensures p.infos[id].service.addr != p.infos[id'].service.addr
    {
      assert Kept(p.infos, r.infos, id);
      var a := r.infos[id].service.addr;
      assert a in r.ids && r.ids[a] == id;
      if id' in r.infos {
        assert Kept(p.infos, r.infos, id');
        assert r.ids[r.infos[id'].service.addr] == id';
      } else {
        assert !Placed(p.infos[id']) && id'.n < p.idCount;
      }
    }
  }

  lemma CoreSound(r: State, w: int)
    requires Core(r, 0, w) && forall id | id in r.infos :: Placed(r.infos[id])
    ensures Sound(r) <==> w == 0
  {
    hide NewSlotsOk, TriedOk, RandomOk, NewIds, TriedIds;
    assert RefCountsOk(r.infos, r.newTable, {}) by { hide SlotsOf; }
  }

  lemma {:induction false} PruneCounts(p: State, low: int, n: int)
    requires Loaded(p)
    ensures var r := Prune(p, low, n); r.idCount == p.idCount && r.newCount <= p.newCount && r.triedCount == p.triedCount
    decreases n - low
  {
    hide Loaded, Delete;
    if n > low {
      PruneCounts(p, low, n - 1);
      var r, id := Prune(p, low, n - 1), Id(n - 1);
      if id in r.infos && !Placed(r.infos[id]) { DeleteLoaded(r, id); DeletedCounts(r, id); }
    }
  }

  // No step of loading raises a counter.

  lemma {:induction false} NewsCounts(s: State, news: seq<Saved>, usable: bool)
    ensures LoadNews(s, news, usable).newCount == s.newCount && LoadNews(s, news, usable).triedCount == s.triedCount
  {
    if news != [] { NewsCounts(s, news[..|news| - 1], usable); }
  }

  lemma {:induction false} TriedsCounts(s: State, trieds: seq<Saved>)
    ensures LoadTrieds(s, trieds).newCount == s.newCount && LoadTrieds(s, trieds).triedCount <= s.triedCount
  {
    if trieds != [] { TriedsCounts(s, trieds[..|trieds| - 1]); }
  }

  lemma {:induction false} BucketCounts(s: State, bucket: nat, list: seq<int>, count: int, usable: bool)
    ensures var r := LoadBucket(s, bucket, list, count, usable); r.newCount == s.newCount && r.triedCount == s.triedCount
  {
    if list != [] { BucketCounts(s, bucket, list[..|list| - 1], count, usable); }
  }

  lemma {:induction false} BucketsCounts(s: State, slots: seq<seq<int>>, count: int, usable: bool)
    ensures var r := LoadBuckets(s, slots, count, usable); r.newCount == s.newCount && r.triedCount == s.triedCount
  {
    hide LoadBucket;
    if slots != [] {
      var n := |slots| - 1;
      BucketsCounts(s, slots[..n], count, usable);
      BucketCounts(LoadBuckets(s, slots[..n], count, usable), n, slots[n], count, usable);
    }
  }

  lemma LoadCounts(f: File)
    ensures Load(f).newCount <= f.newCount && Load(f).triedCount <= f.triedCount
  {
    hide LoadNews, LoadTrieds, LoadBuckets, Prune, Loaded;
    NewsCounts(Start(f), f.news, Usable(f));
    TriedsCounts(LoadNews(Start(f), f.news, Usable(f)), f.trieds);
    BucketsCounts(Entries(f), f.slots, f.newCount, Usable(f));
    PositionsLoaded(f);
    PruneCounts(Positions(f), LowId(f), Positions(f).idCount);
  }

  lemma CountsNotNegative(s: State)
    requires Sound(s)
    ensures s.newCount >= 0 && s.triedCount >= 0
  {
  }

  /** What is left of the entries of a file with a count of new entries that is not negative. */
  lemma LoadLeaves(f: File)
    requires Readable(f) && f.newCount >= 0
    ensures IdRange(Positions(f).infos, Positions(f).idCount) && Covered(Positions(f).infos, Positions(f).ids)
    ensures Left(Positions(f), Load(f), Positions(f).idCount) && Load(f).idCount == Positions(f).idCount
    ensures Core(Load(f), 0, Missing(f)) && forall id | id in Load(f).infos :: Placed(Load(f).infos[id])
  {
    hide Core, Covered, Positions, Prune, RandomOk, FlipBit30;
    var p := Positions(f);
    PositionsCore(f);
    CoreLoaded(p, 0, Missing(f));
    PruneLeaves(p, p.idCount, Missing(f));
    PruneCounts(p, 0, p.idCount);
    var r := Load(f);
    forall id | id in r.infos ensures Placed(r.infos[id]) { assert Kept(p.infos, r.infos, id); }
  }

  /** A manager loaded from a file satisfies the whole invariant, but for the index of addresses, if
      and only if no count in the file is negative. */
  lemma LoadedSound(f: File)
    requires Readable(f)
    ensures Sound(Load(f)) <==> f.newCount >= 0 && f.triedCount >= 0
  {
    hide Core, Sound, Load, Framed, Rejects;
    if f.newCount >= 0 {
      LoadLeaves(f);
      CoreSound(Load(f), Missing(f));
    } else if Sound(Load(f)) {
      LoadCounts(f);
      CountsNotNegative(Load(f));
    }
  }

  /** The index too is right if and only if, moreover, the address of every entry that got a slot
      comes once. */
  lemma LoadedInv(f: File)
    requires Readable(f)
    ensures Inv(Load(f)) <==> f.newCount >= 0 && f.triedCount >= 0 && Unambiguous(Positions(f))
  {
    hide Core, Sound, Load, Positions, Framed, Rejects, IdsOk, Unambiguous, Left, Covered;
    LoadedSound(f);
    if f.newCount >= 0 {
      LoadLeaves(f);
      IndexIff(Positions(f), Load(f));
    }
  }

  // ------------------------------------------------------- addresses in the file

  /** Different entries have different addresses. */
  ghost predicate Apart(infos: map<Id, Info>) {
    forall id, id' | id in infos && id' in infos && id != id' :: infos[id].service.addr != infos[id'].service.addr
  }

  ghost predicate Among(infos: map<Id, Info>, list: seq<Saved>) {
    forall id | id in infos :: exists i :: 0 <= i < |list| && list[i].service.addr == infos[id].service.addr
  }

  ghost predicate AddressesDiffer(list: seq<Saved>) {
    forall i, j | 0 <= i < j < |list| :: list[i].service.addr != list[j].service.addr
  }

  lemma AppendApart(s: State, done: seq<Saved>, v: Saved, tried: bool)
    requires Loaded(s) && Apart(s.infos) && Among(s.infos, done) && AddressesDiffer(done + [v])
    ensures Apart(Append(s, v, tried).infos) && Among(Append(s, v, tried).infos, done + [v])
  {
    hide RandomOk;
    var list := done + [v];
    forall id | id in s.infos ensures exists i :: 0 <= i < |done| && list[i].service.addr == s.infos[id].service.addr {
      var i :| 0 <= i < |done| && done[i].service.addr == s.infos[id].service.addr;
      assert list[i] == done[i];
    }
    assert list[|done|] == v;
  }

  lemma SameAddresses(infos: map<Id, Info>, infos': map<Id, Info>, done: seq<Saved>)
    requires Apart(infos) && Among(infos, done)
    requires infos'.Keys == infos.Keys && forall id | id in infos :: infos'[id].service == infos[id].service
    ensures Apart(infos') && Among(infos', done)
  {
  }

  lemma {:induction false} AmongMore(infos: map<Id, Info>, done: seq<Saved>, v: Saved)
    requires Among(infos, done)
    ensures Among(infos, done + [v])
  {
    forall id | id in infos ensures exists i :: 0 <= i < |done + [v]| && (done + [v])[i].service.addr == infos[id].service.addr {
      var i :| 0 <= i < |done| && done[i].service.addr == infos[id].service.addr;
      assert (done + [v])[i] == done[i];
    }
  }

  lemma {:induction false} NewsApart(s: State, news: seq<Saved>, usable: bool)
    requires Loaded(s) && s.infos == map[] && AddressesDiffer(news)
    ensures Apart(LoadNews(s, news, usable).infos) && Among(LoadNews(s, news, usable).infos, news)
  {
    if news != [] {
      var rest, v := news[..|news| - 1], news[|news| - 1];
      assert news == rest + [v];
      NewsApart(s, rest, usable);
      NewsLoaded(s, rest, usable);
      hide Loaded, Apart, Among, AddressesDiffer;
      var s1 := LoadNews(s, rest, usable);
      AppendApart(s1, rest, v, false);
      SameAddresses(Append(s1, v, false).infos, LoadNew(s1, v, usable).infos, news);
    }
  }

  lemma {:induction false} TriedsApart(s: State, done: seq<Saved>, trieds: seq<Saved>)
    requires Loaded(s) && Apart(s.infos) && Among(s.infos, done) && AddressesDiffer(done + trieds)
    ensures Apart(LoadTrieds(s, trieds).infos) && Among(LoadTrieds(s, trieds).infos, done + trieds)
  {
    if trieds != [] {
      var rest, v := trieds[..|trieds| - 1], trieds[|trieds| - 1];
      assert done + trieds == (done + rest) + [v];
      Prefix(done + rest, v);
      TriedsApart(s, done, rest);
      TriedsLoaded(s, rest);
      hide Loaded, Apart, Among, AddressesDiffer;
      var s1 := LoadTrieds(s, rest);
      AppendApart(s1, done + rest, v, true);
      AmongMore(s1.infos, done + rest, v);
    } else {
      assert done + [] == done;
    }
  }

  lemma Prefix(list: seq<Saved>, v: Saved)
    requires AddressesDiffer(list + [v])
    ensures AddressesDiffer(list)
  {
    forall i, j | 0 <= i < j < |list| ensures list[i].service.addr != list[j].service.addr {
      assert (list + [v])[i] == list[i] && (list + [v])[j] == list[j];
    }
  }

  lemma {:induction false} BucketAddresses(s: State, bucket: nat, list: seq<int>, count: int, usable: bool)
    ensures var r := LoadBucket(s, bucket, list, count, usable);
            r.infos.Keys == s.infos.Keys && forall id | id in s.infos :: r.infos[id].service == s.infos[id].service
  {
    if list != [] { BucketAddresses(s, bucket, list[..|list| - 1], count, usable); }
  }

  lemma {:induction false} BucketsAddresses(s: State, slots: seq<seq<int>>, count: int, usable: bool)
    ensures var r := LoadBuckets(s, slots, count, usable);
            r.infos.Keys == s.infos.Keys && forall id | id in s.infos :: r.infos[id].service == s.infos[id].service
  {
    hide LoadBucket;
    if slots != [] {
      var n := |slots| - 1;
      BucketsAddresses(s, slots[..n], count, usable);
      BucketAddresses(LoadBuckets(s, slots[..n], count, usable), n, slots[n], count, usable);
    }
  }

  /** So a file without negative counts in which no address comes twice gives a consistent manager. */
  lemma DifferentAddresses(f: File)
    requires Readable(f) && f.newCount >= 0 && f.triedCount >= 0 && AddressesDiffer(f.news + f.trieds)
    ensures Inv(Load(f))
  {
    assert AddressesDiffer(f.news) by {
      forall i, j | 0 <= i < j < |f.news| ensures f.news[i].service.addr != f.news[j].service.addr {
        assert (f.news + f.trieds)[i] == f.news[i] && (f.news + f.trieds)[j] == f.news[j];
      }
    }
    assert Loaded(Start(f)) && Start(f).infos == map[];
    hide Inv, Load, Loaded, LoadNews, LoadTrieds, LoadBuckets, AddressesDiffer, Start, Framed, Rejects, Among, FlipBit30;
    NewsApart(Start(f), f.news, Usable(f));
    var s1 := LoadNews(Start(f), f.news, Usable(f));
    NewsLoaded(Start(f), f.news, Usable(f));
    TriedsApart(s1, f.news, f.trieds);
    BucketsAddresses(Entries(f), f.slots, f.newCount, Usable(f));
    SameAddresses(Entries(f).infos, Positions(f).infos, f.news + f.trieds);
    LoadedInv(f);
  }

  // ----------------------------------------------------------------------- runs

  /** From any file without negative counts, every run goes through, and at every point the manager
      is sound and can be saved; if it was loaded with a right index, the index stays right. */
  lemma EveryLoadedRun(f: File, ops: seq<Op>) returns (states: seq<State>)
    requires Readable(f) && f.newCount >= 0 && f.triedCount >= 0
    ensures IsRun(Load(f), ops, states)
    ensures forall k | 0 <= k < |states| :: Sound(states[k]) && CanSave(states[k]) && (Unambiguous(Positions(f)) ==> Inv(states[k]))
  {
    hide Sound, Indexed, Load, IsRun, Framed, Rejects, CanSave, Unambiguous, Positions;
    LoadedSound(f);
    LoadedInv(f);
    states := RunFrom(Load(f), ops);
    forall k | 0 <= k < |states| ensures CanSave(states[k]) { SoundSaves(states[k]); }
  }

  // --------------------------------------------------------------------- inputs

  /** A file with two tried entries of one address and different ports. */
  function TwoPorts(a: NetAddr, source: NetAddr): File {
    var h := Hasher((s: Service) => s.port, (s: Service, n: NetAddr) => 0, (b: bool, n: nat, s: Service) => 0);
    File(1, 32, h, 0, 2, BIT30, [], [Saved(Service(a, 1), 0, 1, source, 1, 0), Saved(Service(a, 2), 0, 1, source, 1, 0)], [])
  }

  /** It is accepted, and the index is wrong. */
  lemma TwoPortsLoaded(a: NetAddr, source: NetAddr)
    ensures Readable(TwoPorts(a, source)) && Sound(Load(TwoPorts(a, source))) && !Inv(Load(TwoPorts(a, source)))
  {
    var f := TwoPorts(a, source);
    assert Readable(f);
    hide Inv, Load, Positions, Core, Unambiguous, Framed, Rejects;
    LoadedInv(f);
    LoadedSound(f);
    Ambiguous(a, source);
  }

  lemma Ambiguous(a: NetAddr, source: NetAddr)
    ensures !Unambiguous(Positions(TwoPorts(a, source)))
  {
    hide Positions, LoadTried, Append;
    var f := TwoPorts(a, source);
    var s := Start(f);
    TwoTried(f);
    LoadsTried(s, f.trieds[0]);
    var s1 := LoadTried(s, f.trieds[0]);
    LoadsTried(s1, f.trieds[1]);
    var p := Positions(f);
    assert Placed(p.infos[Id(0)]) && p.infos[Id(0)].service.addr == p.infos[Id(1)].service.addr;
  }

  lemma LoadsTried(s: State, v: Saved)
    requires s.idCount >= 0 && s.hasher.TriedSlot(v.service) !in s.triedTable
    ensures var r := LoadTried(s, v);
            && r.infos == s.infos[Id(s.idCount) := Restored(v, |s.random|, true)] && r.idCount == s.idCount + 1
            && r.triedTable == s.triedTable[s.hasher.TriedSlot(v.service) := Id(s.idCount)] && r.hasher == s.hasher
  {
  }

  lemma TwoTried(f: File)
    requires f.news == [] && f.slots == [] && |f.trieds| == 2
    ensures Positions(f) == LoadTried(LoadTried(Start(f), f.trieds[0]), f.trieds[1])
  {
    hide LoadTried;
    var s, t := Start(f), f.trieds;
    assert t[..1] == [t[0]] && t[..1][..0] == [];
    assert LoadTrieds(s, t[..1]) == LoadTried(s, t[0]);
  }

  /** A file without entries that announces a negative number of them. */
  function NothingIn(h: Hasher, newCount: int, triedCount: int): File { File(1, 32, h, newCount, triedCount, BIT30, [], [], []) }

  lemma NothingLoaded(h: Hasher, newCount: int, triedCount: int)
    requires newCount <= 0 && triedCount <= 0
    ensures Readable(NothingIn(h, newCount, triedCount)) && Load(NothingIn(h, newCount, triedCount)) == Start(NothingIn(h, newCount, triedCount))
  {
    var f := NothingIn(h, newCount, triedCount);
    assert Positions(f) == Start(f);
  }

  /** With -1 new entries it is accepted, and the counters do not add up to the entries. */
  lemma MinusOneNew(h: Hasher)
    ensures var f := NothingIn(h, -1, 0);
            Readable(f) && !Sound(Load(f)) && Load(f).newCount + Load(f).triedCount != |Load(f).random|
  {
    NothingLoaded(h, -1, 0);
    LoadedSound(NothingIn(h, -1, 0));
  }

  /** With -1 tried entries it is accepted too.  An address is then added and reached; both calls run,
      but the next save fails an assertion. */
  lemma MinusOneTried(h: Hasher, a: Address, source: NetAddr, now: int, time: int) returns (s1: State, s2: State)
    ensures var f := NothingIn(h, 0, -1);
            && Readable(f) && Runs(Load(f), OpAdd(a, true, source, 0, now, 0)) && s1 == Step(Load(f), OpAdd(a, true, source, 0, now, 0))
            && Runs(s1, OpGood(a.service, time)) && s2 == Step(s1, OpGood(a.service, time)) && !CanSave(s2)
  {
    NothingLoaded(h, 0, -1);
    var s0, t := Empty(h).(triedCount := -1), h.NewSlot(a.service, source);
    AddsFirst(s0, a, source, now);
    s1 := Add(s0, a, true, source, 0, now, 0);
    ReachesFirst(s1, a.service, t, time);
    s2 := Good(s1, a.service, time);
    CountsAsNone(s2);
  }

  /** The only entry of s: new, in slot t. */
  ghost predicate OnlyNew(s: State, svc: Service, t: Slot) {
    && s.infos.Keys == {Id(0)} && s.infos[Id(0)].service == svc && s.infos[Id(0)].refCount == 1 && !s.infos[Id(0)].inTried
    && s.ids == map[svc.addr := Id(0)] && s.newTable == map[t := Id(0)] && s.triedTable == map[]
  }

  lemma AddsFirst(s: State, a: Address, source: NetAddr, now: int)
    requires s.infos == map[] && s.ids == map[] && s.newTable == map[] && s.triedTable == map[] && s.idCount == 0
    ensures CanAdd(s, a, true, source, 0, now, 0)
    ensures OnlyNew(Add(s, a, true, source, 0, now, 0), a.service, s.hasher.NewSlot(a.service, source))
    ensures Add(s, a, true, source, 0, now, 0).triedCount == s.triedCount
  {
    var c, t := Created(s, a, source, Penalty(a, source, 0)), s.hasher.NewSlot(a.service, source);
    assert Settle(c, Id(0), source, now) == PlaceNew(c, t, Id(0));
  }

  lemma ReachesFirst(s: State, svc: Service, t: Slot, time: int)
    requires OnlyNew(s, svc, t)
    ensures CanGood(s, svc, time)
    ensures var r := Good(s, svc, time);
            r.infos.Keys == {Id(0)} && r.infos[Id(0)].inTried && r.triedCount == s.triedCount + 1
  {
    var p := Promoted(s.(lastGood := time), Id(0), time);
    assert SlotsOf(p.newTable, Id(0)) == {t};
  }

  lemma CountsAsNone(s: State)
    requires s.infos.Keys == {Id(0)} && s.infos[Id(0)].inTried && s.triedCount == 0
    ensures !CanSave(s)
  {
    assert Picked(s.infos[Id(0)], true) && Listed(s.infos, 0, true) == [];
  }
}
