/** CAddrMan::Serialize and CAddrMan::Unserialize (src/addrman.h) on the in-place structure. */
module AddrManFile {
  import opened AddrManSpec
  import opened AddrManProofs
  import opened AddrManFileSpec
  import opened AddrManFileProofs
  import AM = AddrMan

  // ------------------------------------------------------------------ Serialize

  lemma NextListed(infos: map<Id, Info>, n: nat, tried: bool)
    ensures Ordered(infos, n, tried, Listed(infos, n, tried)) && Ordered(infos, n + 1, tried, Listed(infos, n + 1, tried))
    ensures SaveAll(infos, Listed(infos, n + 1, tried)) ==
            SaveAll(infos, Listed(infos, n, tried)) + if Id(n) in infos && Picked(infos[Id(n)], tried) then [ToSaved(infos[Id(n)])] else []
  {
    ListedIn(infos, n, tried);
    ListedIn(infos, n + 1, tried);
  }

  method SaveEntries(a: AM.AddrMan, tried: bool) returns (out: seq<Saved>, unkIds: map<Id, int>)
    requires a.Shaped() && Sound(a.State())
    ensures var list := Listed(a.mapInfo, a.nIdCount, tried);
            Ordered(a.mapInfo, a.nIdCount, tried, list) && out == SaveAll(a.mapInfo, list)
    ensures forall id | id in a.mapInfo :: id in unkIds && 0 <= id.n && unkIds[id] == |Listed(a.mapInfo, id.n, tried)|
  {
    hide Sound, Listed, SaveAll;
    ghost var s := a.State();
    out, unkIds := [], map[];
    Nothing(s.infos, tried);
    Real(s);
    for n := 0 to a.nIdCount
      invariant Ordered(s.infos, n, tried, Listed(s.infos, n, tried)) && out == SaveAll(s.infos, Listed(s.infos, n, tried))
      invariant |out| == |Listed(s.infos, n, tried)|
      invariant forall k | 0 <= k < n && Id(k) in s.infos :: Id(k) in unkIds && unkIds[Id(k)] == |Listed(s.infos, k, tried)|
    {
      NextListed(s.infos, n, tried);
      Lengths2(s.infos, n + 1, tried);
      if Id(n) in a.mapInfo {
        unkIds := unkIds[Id(n) := |out|];
        var info := a.mapInfo[Id(n)];
        if Picked(info, tried) {
          RoomLeft(s, Id(n), tried);
          assert |out| != if tried then a.nTried else a.nNew;
          out := out + [ToSaved(info)];
        }
      }
    }
    forall id | id in s.infos ensures 0 <= id.n < s.idCount { PickedIff(s, id); }
    assert forall id | id in s.infos :: id == Id(id.n);
  }

  lemma Nothing(infos: map<Id, Info>, tried: bool)
    ensures Listed(infos, 0, tried) == [] && SaveAll(infos, []) == []
  {
  }

  lemma Lengths2(infos: map<Id, Info>, n: nat, tried: bool)
    requires Ordered(infos, n, tried, Listed(infos, n, tried))
    ensures |SaveAll(infos, Listed(infos, n, tried))| == |Listed(infos, n, tried)|
  {
  }

  method SaveBucket(a: AM.AddrMan, unkIds: map<Id, int>, bucket: nat) returns (out: seq<int>)
    requires a.Shaped() && Sound(a.State()) && bucket < NEW_BUCKETS
    requires forall id | id in a.mapInfo :: id in unkIds && 0 <= id.n && unkIds[id] == |Listed(a.mapInfo, id.n, false)|
    ensures out == BucketList(a.State(), bucket, BUCKET_SIZE)
  {
    hide Sound;
    ghost var s := a.State();
    out := [];
    for i := 0 to BUCKET_SIZE
      invariant out == BucketList(s, bucket, i)
    {
      var id := a.vvNew[bucket, i];
      assert (Slot(bucket, i) in s.newTable) == (id != NO_ID);
      if id != NO_ID {
        assert s.newTable[Slot(bucket, i)] == id;
        Occupied(s, Slot(bucket, i));
        out := out + [unkIds[id]];
      }
    }
  }

  method Serialize(a: AM.AddrMan) returns (f: File)
    requires a.Shaped() && Sound(a.State())
    ensures f == Save(a.State())
  {
    hide Sound, BucketList, Listed, SaveAll, FlipBit30;
    ghost var s := a.State();
    var news, unkIds := SaveEntries(a, false);
    var trieds, _ := SaveEntries(a, true);
    var slots: seq<seq<int>> := [];
    for bucket := 0 to NEW_BUCKETS
      invariant |slots| == bucket && forall b | 0 <= b < bucket :: slots[b] == BucketList(s, b, BUCKET_SIZE)
    {
      var list := SaveBucket(a, unkIds, bucket);
      slots := slots + [list];
    }
    f := File(1, 32, a.hasher, a.nNew, a.nTried, FlipBit30(NEW_BUCKETS), news, trieds, slots);
    assert slots == Save(s).slots;
  }

  // ---------------------------------------------------------------- Unserialize

  method AppendEntry(a: AM.AddrMan, v: Saved, inTried: bool) returns (id: Id)
    requires a.Shaped()
    modifies a`nIdCount, a`mapInfo, a`mapAddr, a`vRandom
    ensures id == Id(old(a.nIdCount)) && id in a.mapInfo && a.State() == Append(old(a.State()), v, inTried)
  {
    id := Id(a.nIdCount);
    a.mapInfo := a.mapInfo[id := Restored(v, |a.vRandom|, inTried)];
    a.mapAddr := a.mapAddr[v.service.addr := id];
    a.vRandom := a.vRandom + [id];
    a.nIdCount := a.nIdCount + 1;
  }

  method ReadNew(a: AM.AddrMan, v: Saved, usable: bool)
    requires a.Shaped() && a.nIdCount >= 0
    modifies a, a.vvNew
    ensures a.State() == LoadNew(old(a.State()), v, usable) && a.nIdCount == old(a.nIdCount) + 1
  {
    var id := AppendEntry(a, v, false);
    if !usable {
      var t := a.hasher.NewSlot(v.service, v.source);
      if a.vvNew[t.bucket, t.pos] == NO_ID { a.PlaceNew(t, id); }
    }
  }

  method ReadTried(a: AM.AddrMan, v: Saved) returns (lost: bool)
    requires a.Shaped()
    modifies a, a.vvTried
    ensures a.State() == LoadTried(old(a.State()), v).(triedCount := old(a.nTried))
    ensures LoadTried(old(a.State()), v).triedCount == old(a.nTried) - if lost then 1 else 0
  {
    var t := a.hasher.TriedSlot(v.service);
    lost := a.vvTried[t.bucket, t.pos] != NO_ID;
    if !lost {
      var id := AppendEntry(a, v, true);
      SetTried(a, t, id);
    }
  }

  method SetTried(a: AM.AddrMan, t: Slot, id: Id)
    requires a.Shaped() && t.bucket < TRIED_BUCKETS && t.pos < BUCKET_SIZE && a.vvTried[t.bucket, t.pos] == NO_ID
    modifies a.vvTried
    ensures a.State() == old(a.State()).(triedTable := if id == NO_ID then old(a.State()).triedTable else old(a.State()).triedTable[t := id])
  {
    a.vvTried[t.bucket, t.pos] := id;
    ghost var before := old(AM.AddrMan.Table(a.vvTried));
    assert AM.AddrMan.Table(a.vvTried) == if id == NO_ID then before else before[t := id];
  }

  method ReadSlot(a: AM.AddrMan, bucket: nat, index: int, usable: bool)
    requires a.Shaped() && (usable ==> bucket < NEW_BUCKETS)
    modifies a`mapInfo, a.vvNew
    ensures a.State() == LoadSlot(old(a.State()), bucket, index, a.nNew, usable)
  {
    if 0 <= index < a.nNew && Id(index) in a.mapInfo {
      var info := a.mapInfo[Id(index)];
      var t := Slot(bucket, a.hasher.Position(true, bucket, info.service));
      if usable && a.vvNew[t.bucket, t.pos] == NO_ID && info.refCount < NEW_BUCKETS_PER_ADDRESS { a.PlaceNew(t, Id(index)); }
    }
  }

  method ReadEntries(a: AM.AddrMan, f: File)
    requires a.Shaped() && Framed(f) && a.State() == Start(f)
    modifies a, a.vvNew, a.vvTried
    ensures a.State() == Entries(f)
  {
    hide LoadNew, LoadTried;
    ghost var s0 := a.State();
    for n := 0 to |f.news|
      invariant a.State() == LoadNews(s0, f.news[..n], Usable(f))
      invariant f.news != [] ==> a.nIdCount == n
    {
      assert f.news[..n + 1][..n] == f.news[..n];
      ReadNew(a, f.news[n], Usable(f));
    }
    assert f.news[..|f.news|] == f.news;
    ghost var s1 := a.State();
    var nLost := 0;
    for n := 0 to |f.trieds|
      invariant a.State() == LoadTrieds(s1, f.trieds[..n]).(triedCount := a.nTried)
      invariant LoadTrieds(s1, f.trieds[..n]).triedCount == a.nTried - nLost
    {
      assert f.trieds[..n + 1][..n] == f.trieds[..n];
      AnyCount(LoadTrieds(s1, f.trieds[..n]), f.trieds[n], a.nTried);
      var lost := ReadTried(a, f.trieds[n]);
      if lost { nLost := nLost + 1; }
    }
    assert f.trieds[..|f.trieds|] == f.trieds;
    a.nTried := a.nTried - nLost;
  }

  /** The count of tried entries does not matter while they are read. */
  lemma AnyCount(s: State, v: Saved, n: int)
    ensures var r := LoadTried(s, v);
            LoadTried(s.(triedCount := n), v) == r.(triedCount := n + r.triedCount - s.triedCount)
  {
  }

  method ReadPositions(a: AM.AddrMan, f: File)
    requires a.Shaped() && a.State() == Entries(f) && a.nNew == f.newCount && Framed(f)
    modifies a`mapInfo, a.vvNew
    ensures a.State() == Positions(f)
  {
    hide Entries, LoadBucket;
    for b := 0 to |f.slots|
      invariant a.State() == LoadBuckets(Entries(f), f.slots[..b], f.newCount, Usable(f))
    {
      assert f.slots[..b + 1][..b] == f.slots[..b];
      ReadBucket(a, b, f.slots[b], Usable(f));
    }
    assert f.slots[..|f.slots|] == f.slots;
  }

  method ReadBucket(a: AM.AddrMan, b: nat, list: seq<int>, usable: bool)
    requires a.Shaped() && (usable ==> b < NEW_BUCKETS)
    modifies a`mapInfo, a.vvNew
    ensures a.State() == LoadBucket(old(a.State()), b, list, a.nNew, usable)
  {
    hide LoadSlot;
    ghost var s := a.State();
    for n := 0 to |list|
      invariant a.State() == LoadBucket(s, b, list[..n], a.nNew, usable)
    {
      assert list[..n + 1][..n] == list[..n];
      ReadSlot(a, b, list[n], usable);
    }
    assert list[..|list|] == list;
  }

  method DropUnplaced(a: AM.AddrMan, low: int)
    requires a.Shaped() && Loaded(a.State())
    modifies a`mapInfo, a`vRandom, a`mapAddr, a`nNew
    ensures a.State() == Prune(old(a.State()), low, old(a.nIdCount))
  {
    hide Loaded, Delete;
    ghost var s := a.State();
    if a.nIdCount <= low { return; }
    for n := low to a.nIdCount
      invariant a.State() == Prune(s, low, n)
    {
      var id := Id(n);
      if id in a.mapInfo && !a.mapInfo[id].inTried && a.mapInfo[id].refCount == 0 {
        DeleteLoaded(a.State(), id);
        a.Delete(id);
      }
    }
  }

  /** Loading any file runs without failing an assertion; it is refused just when a size is wrong or
      it ends too soon. */
  method Unserialize(f: File) returns (a: AM.AddrMan, ok: bool)
    requires Framed(f)
    ensures fresh(a) && a.Shaped() && ok == !Rejects(f)
    ensures ok ==> a.State() == Load(f)
  {
    hide Entries, Positions, Prune, Loaded, FlipBit30;
    a := new AM.AddrMan(f.key);
    if f.keySize != 32 { return a, false; }
    a.nNew := f.newCount;
    a.nTried := f.triedCount;
    if a.nNew > NEW_BUCKETS * BUCKET_SIZE { return a, false; }
    if a.nTried > TRIED_BUCKETS * BUCKET_SIZE { return a, false; }
    if |f.news| < a.nNew || |f.trieds| < a.nTried || |f.slots| < Buckets(f) { return a, false; }
    a.nIdCount := LowId(f);
    ReadEntries(a, f);
    CountKept(f);
    ReadPositions(a, f);
    PositionsLoaded(f);
    DropUnplaced(a, LowId(f));
    ok := true;
  }

  lemma CountKept(f: File)
    ensures Entries(f).newCount == f.newCount
  {
    NewsCount(Start(f), f.news, Usable(f));
    TriedsCount(LoadNews(Start(f), f.news, Usable(f)), f.trieds);
  }

  lemma {:induction false} NewsCount(s: State, news: seq<Saved>, usable: bool)
    ensures LoadNews(s, news, usable).newCount == s.newCount
  {
    if news != [] { NewsCount(s, news[..|news| - 1], usable); }
  }

  lemma {:induction false} TriedsCount(s: State, trieds: seq<Saved>)
    ensures LoadTrieds(s, trieds).newCount == s.newCount
  {
    if trieds != [] { TriedsCount(s, trieds[..|trieds| - 1]); }
  }

  /** Writing and reading back. */
  method SaveAndLoad(a: AM.AddrMan) returns (b: AM.AddrMan)
    requires a.Shaped() && Inv(a.State())
    ensures fresh(b) && b.Shaped() && Inv(b.State()) && Renamed(a.State(), b.State(), FileList(a.State()))
  {
    hide Sound, Indexed, Renamed, Save, Load, Rejects, FileList, Framed;
    RoundTrip(a.State());
    var f := Serialize(a);
    var ok;
    b, ok := Unserialize(f);
  }
}
