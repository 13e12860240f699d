/** Saving a consistent address manager and loading the file gives the same entries in the same
    slots, under new ids, and the full invariant. */
module AddrManFileProofs {
  import opened AddrManSpec
  import opened Counting
  import opened AddrManProofs
  import opened AddrManFileSpec

  /** The entries of s in the order of the file: m new ones, then the tried ones. */
  ghost predicate Listing(s: State, list: seq<Id>, m: nat) {
    && m <= |list|
    && (forall i | 0 <= i < |list| :: list[i] in s.infos && (s.infos[list[i]].inTried <==> i >= m))
    && (forall i, j | 0 <= i < j < |list| :: list[i] != list[j])
    && (forall id | id in s.infos :: id in list)
  }

  ghost predicate InList(s: State, list: seq<Id>) { forall i | 0 <= i < |list| :: list[i] in s.infos }

  /** Entry i of the list as it is restored, when tab holds the slots assigned so far. */
  ghost function Image(s: State, list: seq<Id>, tab: map<Slot, Id>, i: nat): Info
    requires i < |list| && list[i] in s.infos
  {
    Restored(ToSaved(s.infos[list[i]]), i, s.infos[list[i]].inTried).(refCount := |SlotsOf(tab, list[i])|)
  }

  ghost predicate InfosMatch(s: State, list: seq<Id>, k: nat, tab: map<Slot, Id>, infos: map<Id, Info>)
    requires InList(s, list) && k <= |list|
  {
    && (forall id :: id in infos <==> 0 <= id.n < k)
    && (forall id | id in infos :: infos[id] == Image(s, list, tab, id.n))
  }

  ghost predicate IdsMatch(s: State, list: seq<Id>, k: nat, ids: map<NetAddr, Id>)
    requires InList(s, list) && k <= |list|
  {
    && (forall i | 0 <= i < k :: s.infos[list[i]].service.addr in ids && ids[s.infos[list[i]].service.addr] == Id(i))
    && (forall a | a in ids :: 0 <= ids[a].n < k && s.infos[list[ids[a].n]].service.addr == a)
  }

  ghost predicate InOrder(k: nat, random: seq<Id>) { |random| == k && forall i | 0 <= i < k :: random[i] == Id(i) }

  ghost predicate NewMatch(list: seq<Id>, k: nat, tab: map<Slot, Id>, table: map<Slot, Id>)
    requires k <= |list|
  {
    table.Keys == tab.Keys && forall t | t in tab :: 0 <= table[t].n < k && list[table[t].n] == tab[t]
  }

  ghost predicate TriedMatch(s: State, list: seq<Id>, k: nat, table: map<Slot, Id>)
    requires InList(s, list) && k <= |list|
  {
    && (forall t | t in table :: t in s.triedTable && 0 <= table[t].n < k && list[table[t].n] == s.triedTable[t])
    && (forall i | 0 <= i < k && s.infos[list[i]].inTried ::
          var t := s.hasher.TriedSlot(s.infos[list[i]].service); t in table && table[t] == Id(i))
  }

  /** r holds the first k entries of the list, and the new slots in tab. */
  ghost predicate Matches(s: State, list: seq<Id>, k: nat, tab: map<Slot, Id>, r: State) {
    && InList(s, list) && k <= |list| && r.hasher == s.hasher && r.idCount == k
    && InfosMatch(s, list, k, tab, r.infos) && IdsMatch(s, list, k, r.ids) && InOrder(k, r.random)
    && NewMatch(list, k, tab, r.newTable) && TriedMatch(s, list, k, r.triedTable)
    && r.newCount == s.newCount && r.triedCount == s.triedCount && r.lastGood == 1
  }

  // -------------------------------------------------------------------- entries

  lemma AppendInfos(s: State, list: seq<Id>, k: nat, tab: map<Slot, Id>, infos: map<Id, Info>, id: Id, info: Info)
    requires InList(s, list) && k < |list| && InfosMatch(s, list, k, tab, infos) && id == Id(k) && info == Image(s, list, tab, k)
    ensures InfosMatch(s, list, k + 1, tab, infos[id := info])
  {
    hide Image;
  }

  lemma OwnAddress(s: State, id: Id, id': Id)
    requires Inv(s) && id in s.infos && id' in s.infos && id != id'
    ensures s.infos[id].service.addr != s.infos[id'].service.addr
  {
    hide RandomOk, NewSlotsOk, RefCountsOk, TriedOk;
  }

  lemma AppendIds(s: State, list: seq<Id>, m: nat, k: nat, ids: map<NetAddr, Id>)
    requires Inv(s) && Listing(s, list, m) && k < |list| && IdsMatch(s, list, k, ids)
    ensures IdsMatch(s, list, k + 1, ids[s.infos[list[k]].service.addr := Id(k)])
  {
    hide Sound, Indexed;
    forall i | 0 <= i < k ensures s.infos[list[i]].service.addr != s.infos[list[k]].service.addr {
      OwnAddress(s, list[i], list[k]);
    }
    PutId(s, list, k, ids, s.infos[list[k]].service.addr);
  }

  lemma PutId(s: State, list: seq<Id>, k: nat, ids: map<NetAddr, Id>, a: NetAddr)
    requires InList(s, list) && k < |list| && IdsMatch(s, list, k, ids) && s.infos[list[k]].service.addr == a
    requires forall i | 0 <= i < k :: s.infos[list[i]].service.addr != a
    ensures IdsMatch(s, list, k + 1, ids[a := Id(k)])
  {
  }

  lemma NoSlots(id: Id)
    ensures |SlotsOf(map[], id)| == 0
  {
    assert SlotsOf(map[], id) == {};
  }

  lemma AppendMatches(s: State, list: seq<Id>, m: nat, k: nat, r: State, v: Saved, tried: bool)
    requires Inv(s) && Listing(s, list, m) && k < |list| && Matches(s, list, k, map[], r)
    requires v == ToSaved(s.infos[list[k]]) && tried == s.infos[list[k]].inTried
    ensures var r1 := Append(r, v, tried);
            && InfosMatch(s, list, k + 1, map[], r1.infos) && IdsMatch(s, list, k + 1, r1.ids) && InOrder(k + 1, r1.random)
  {
    hide Sound, Indexed, InfosMatch, IdsMatch, NewMatch, TriedMatch, SlotsOf;
    NoSlots(list[k]);
    AppendInfos(s, list, k, map[], r.infos, Id(k), Restored(v, k, tried));
    AppendIds(s, list, m, k, r.ids);
  }

  lemma StepNew(s: State, list: seq<Id>, m: nat, k: nat, r: State)
    requires Inv(s) && Listing(s, list, m) && k < m && Matches(s, list, k, map[], r)
    ensures Matches(s, list, k + 1, map[], LoadNew(r, ToSaved(s.infos[list[k]]), true))
  {
    hide Sound, Indexed, InfosMatch, IdsMatch;
    AppendMatches(s, list, m, k, r, ToSaved(s.infos[list[k]]), false);
  }

  /** The slot of a tried entry is its own, so it is free. */
  lemma StepTried(s: State, list: seq<Id>, m: nat, k: nat, r: State)
    requires Inv(s) && Listing(s, list, m) && m <= k < |list| && Matches(s, list, k, map[], r)
    ensures Matches(s, list, k + 1, map[], LoadTried(r, ToSaved(s.infos[list[k]])))
  {
    hide InfosMatch, IdsMatch, RandomOk, IdsOk, NewSlotsOk, RefCountsOk, NewIds, TriedIds;
    AppendMatches(s, list, m, k, r, ToSaved(s.infos[list[k]]), true);
    var t := s.hasher.TriedSlot(s.infos[list[k]].service);
    assert s.triedTable[t] == list[k];
    assert t !in r.triedTable;
    FreeTried(s, list, k, r.triedTable, t);
  }

  lemma FreeTried(s: State, list: seq<Id>, k: nat, table: map<Slot, Id>, t: Slot)
    requires InList(s, list) && k < |list| && TriedMatch(s, list, k, table) && t !in table
    requires s.infos[list[k]].inTried && t == s.hasher.TriedSlot(s.infos[list[k]].service) && t in s.triedTable && s.triedTable[t] == list[k]
    ensures TriedMatch(s, list, k + 1, table[t := Id(k)])
  {
  }

  // ---------------------------------------------------------------------- slots

  /** The slots of a table before position p of bucket b. */
  ghost function Before(table: map<Slot, Id>, b: nat, p: nat): map<Slot, Id> {
    map t | t in table && (t.bucket < b || (t.bucket == b && t.pos < p)) :: table[t]
  }

  lemma SlotInfos(s: State, list: seq<Id>, m: nat, tab: map<Slot, Id>, infos: map<Id, Info>, t: Slot, k: nat)
    requires Listing(s, list, m) && InfosMatch(s, list, |list|, tab, infos) && t !in tab && k < |list|
    ensures Id(k) in infos && InfosMatch(s, list, |list|, tab[t := list[k]], infos[Id(k) := infos[Id(k)].(refCount := infos[Id(k)].refCount + 1)])
  {
    hide SlotsOf;
    var id, tab' := list[k], tab[t := list[k]];
    forall i | 0 <= i < |list| ensures |SlotsOf(tab', list[i])| == |SlotsOf(tab, list[i])| + if i == k then 1 else 0 {
      SlotsAdded(tab, t, id, list[i]);
    }
  }

  /** An entry has fewer slots while one of its own is still missing. */
  lemma FewerSlots(table: map<Slot, Id>, tab: map<Slot, Id>, t: Slot)
    requires t in table && t !in tab && forall u | u in tab :: u in table && table[u] == tab[u]
    ensures |SlotsOf(tab, table[t])| < |SlotsOf(table, table[t])|
  {
    var a, b := SlotsOf(tab, table[t]), SlotsOf(table, table[t]);
    assert a <= b - {t};
    SubsetSize(a, b - {t});
  }

  /** A slot of a consistent state, as the invariant describes it. */
  lemma Occupied(s: State, t: Slot)
    requires Sound(s) && t in s.newTable
    ensures t.bucket < NEW_BUCKETS && t.pos < BUCKET_SIZE && s.newTable[t] in s.infos && !s.infos[s.newTable[t]].inTried
    ensures t.pos == s.hasher.Position(true, t.bucket, s.infos[s.newTable[t]].service)
    ensures 1 <= |SlotsOf(s.newTable, s.newTable[t])| <= NEW_BUCKETS_PER_ADDRESS
    ensures s.infos[s.newTable[t]].refCount == |SlotsOf(s.newTable, s.newTable[t])|
  {
    hide RandomOk, IdsOk, TriedOk, SlotsOf, NewIds, TriedIds;
  }

  lemma StepSlot(s: State, list: seq<Id>, m: nat, tab: map<Slot, Id>, r: State, t: Slot, k: nat)
    requires Inv(s) && Listing(s, list, m) && Matches(s, list, |list|, tab, r)
    requires t in s.newTable && t !in tab && (forall u | u in tab :: u in s.newTable && s.newTable[u] == tab[u])
    requires k < m && list[k] == s.newTable[t]
    ensures Matches(s, list, |list|, tab[t := list[k]], LoadSlot(r, t.bucket, k, m, true))
  {
    hide Sound, Indexed, IdsMatch, TriedMatch, SlotsOf;
    Occupied(s, t);
    FewerSlots(s.newTable, tab, t);
    SlotInfos(s, list, m, tab, r.infos, t, k);
    var info := r.infos[Id(k)];
    assert info == Image(s, list, tab, k);
    assert t == Slot(t.bucket, s.hasher.Position(true, t.bucket, info.service));
    var r1 := LoadSlot(r, t.bucket, k, m, true);
    assert r1 == PlaceNew(r, t, Id(k));
    hide InfosMatch;
    NewMatches(list, tab, r.newTable, t, k);
  }

  lemma NewMatches(list: seq<Id>, tab: map<Slot, Id>, table: map<Slot, Id>, t: Slot, k: nat)
    requires NewMatch(list, |list|, tab, table) && k < |list|
    ensures NewMatch(list, |list|, tab[t := list[k]], table[t := Id(k)])
  {
  }

  // ------------------------------------------------------------------ the lists

  ghost function FileList(s: State): seq<Id> { Listed(s.infos, s.idCount, false) + Listed(s.infos, s.idCount, true) }

  ghost function NewLength(s: State): nat { |Listed(s.infos, s.idCount, false)| }

  /** The reference count tells new entries from tried ones. */
  lemma PickedIff(s: State, id: Id)
    requires Sound(s) && id in s.infos
    ensures 0 <= id.n < s.idCount && Picked(s.infos[id], true) == s.infos[id].inTried && Picked(s.infos[id], false) == !s.infos[id].inTried
  {
    hide RandomOk, NewSlotsOk, SlotsOf, NewIds, TriedIds;
  }

  lemma ListingHolds(s: State)
    requires Sound(s)
    ensures Listing(s, FileList(s), NewLength(s))
  {
    hide Sound, Listed;
    var news, trieds := Listed(s.infos, s.idCount, false), Listed(s.infos, s.idCount, true);
    ListedIn(s.infos, s.idCount, false);
    ListedIn(s.infos, s.idCount, true);
    var list, m := news + trieds, |news|;
    forall i | 0 <= i < |list| ensures list[i] in s.infos && (s.infos[list[i]].inTried <==> i >= m) {
      PickedIff(s, list[i]);
    }
    forall i, j | 0 <= i < j < |list| ensures list[i] != list[j] {
      PickedIff(s, list[i]);
      PickedIff(s, list[j]);
    }
    forall id | id in s.infos ensures id in list {
      PickedIff(s, id);
      var tried := s.infos[id].inTried;
      ListedAt(s.infos, s.idCount, tried, id);
      var k := |Listed(s.infos, id.n, tried)|;
      assert id == list[if tried then m + k else k];
    }
  }

  lemma Lengths(s: State, list: seq<Id>, m: nat)
    requires Listing(s, list, m)
    ensures |NewIds(s.infos)| == m && |TriedIds(s.infos)| == |list| - m
  {
    Injective(list[..m]);
    Injective(list[m..]);
    Parts(s, list, m);
    hide NewIds, TriedIds, Listing;
    assert NewIds(s.infos) == set id | id in list[..m];
    assert TriedIds(s.infos) == set id | id in list[m..];
  }

  /** The counters are the lengths of the two lists. */
  lemma CountsAreLengths(s: State, list: seq<Id>, m: nat)
    requires Sound(s) && Listing(s, list, m)
    ensures s.newCount == m && s.triedCount == |list| - m
  {
    hide RandomOk, IdsOk, NewSlotsOk, RefCountsOk, TriedOk, NewIds, TriedIds;
    Lengths(s, list, m);
  }

  /** The assertion in each of the two loops over the entries. */
  lemma RoomLeft(s: State, id: Id, tried: bool)
    requires Sound(s) && id in s.infos && Picked(s.infos[id], tried)
    ensures |Listed(s.infos, id.n, tried)| < if tried then s.triedCount else s.newCount
  {
    hide Sound;
    ListingHolds(s);
    CountsAreLengths(s, FileList(s), NewLength(s));
    PickedIff(s, id);
    ListedAt(s.infos, s.idCount, tried, id);
  }

  /** A sound manager can be saved, whatever its index of addresses. */
  lemma SoundSaves(s: State)
    requires Sound(s)
    ensures CanSave(s)
  {
    hide Sound, Listed;
    forall id, tried | id in s.infos && Picked(s.infos[id], tried)
      ensures |Listed(s.infos, id.n, tried)| != if tried then s.triedCount else s.newCount
    {
      RoomLeft(s, id, tried);
    }
  }

  lemma Parts(s: State, list: seq<Id>, m: nat)
    requires Listing(s, list, m)
    ensures forall id :: id in NewIds(s.infos) <==> id in list[..m]
    ensures forall id :: id in TriedIds(s.infos) <==> id in list[m..]
  {
    forall id ensures (id in NewIds(s.infos) <==> id in list[..m]) && (id in TriedIds(s.infos) <==> id in list[m..]) {
      if id in s.infos {
        var i :| 0 <= i < |list| && list[i] == id;
        if i < m { assert list[..m][i] == id; } else { assert list[m..][i - m] == id; }
      }
    }
  }

  // ------------------------------------------------------------------ the folds

  lemma {:induction false} NewsMatch(s: State, list: seq<Id>, m: nat, news: seq<Saved>, k: nat, s0: State)
    requires Inv(s) && Listing(s, list, m) && k <= |news| == m && Matches(s, list, 0, map[], s0)
    requires forall i | 0 <= i < m :: news[i] == ToSaved(s.infos[list[i]])
    ensures Matches(s, list, k, map[], LoadNews(s0, news[..k], true))
    decreases k
  {
    hide Sound, Indexed, Matches, LoadNew;
    if k > 0 {
      NewsMatch(s, list, m, news, k - 1, s0);
      assert news[..k][..k - 1] == news[..k - 1];
      StepNew(s, list, m, k - 1, LoadNews(s0, news[..k - 1], true));
    }
  }

  lemma {:induction false} TriedsMatch(s: State, list: seq<Id>, m: nat, trieds: seq<Saved>, k: nat, s1: State)
    requires Inv(s) && Listing(s, list, m) && k <= |trieds| == |list| - m && Matches(s, list, m, map[], s1)
    requires forall i | 0 <= i < |trieds| :: trieds[i] == ToSaved(s.infos[list[m + i]])
    ensures Matches(s, list, m + k, map[], LoadTrieds(s1, trieds[..k]))
    decreases k
  {
    hide Sound, Indexed, Matches, LoadTried;
    if k > 0 {
      TriedsMatch(s, list, m, trieds, k - 1, s1);
      assert trieds[..k][..k - 1] == trieds[..k - 1];
      StepTried(s, list, m, m + (k - 1), LoadTrieds(s1, trieds[..k - 1]));
    }
  }

  lemma RankIs(s: State, id: Id)
    requires Sound(s) && id in s.infos && !s.infos[id].inTried
    ensures Rank(s.infos, id) < NewLength(s) && FileList(s)[Rank(s.infos, id)] == id
  {
    hide Sound;
    PickedIff(s, id);
    ListedAt(s.infos, s.idCount, false, id);
  }

  lemma {:induction false} BucketMatch(s: State, list: seq<Id>, m: nat, b: nat, p: nat, r: State)
    requires Inv(s) && list == FileList(s) && m == NewLength(s) && Listing(s, list, m)
    requires Matches(s, list, |list|, Before(s.newTable, b, 0), r)
    ensures Matches(s, list, |list|, Before(s.newTable, b, p), LoadBucket(r, b, BucketList(s, b, p), m, true))
    decreases p
  {
    hide Sound, Indexed, Matches, LoadSlot, Rank, FileList, Listing;
    if p > 0 {
      BucketMatch(s, list, m, b, p - 1, r);
      var rest, t := BucketList(s, b, p - 1), Slot(b, p - 1);
      var r1, tab := LoadBucket(r, b, rest, m, true), Before(s.newTable, b, p - 1);
      if t in s.newTable {
        var id := s.newTable[t];
        Occupied(s, t);
        RankIs(s, id);
        StepSlot(s, list, m, tab, r1, t, Rank(s.infos, id));
        assert Before(s.newTable, b, p) == tab[t := id];
        assert (rest + [Rank(s.infos, id)])[..|rest|] == rest;
      } else {
        assert Before(s.newTable, b, p) == tab;
      }
    }
  }

  lemma {:induction false} BucketsMatch(s: State, list: seq<Id>, m: nat, slots: seq<seq<int>>, b: nat, r: State)
    requires Inv(s) && list == FileList(s) && m == NewLength(s) && Listing(s, list, m)
    requires |slots| == NEW_BUCKETS && b <= |slots| && forall i | 0 <= i < |slots| :: slots[i] == BucketList(s, i, BUCKET_SIZE)
    requires Matches(s, list, |list|, map[], r)
    ensures Matches(s, list, |list|, Before(s.newTable, b, 0), LoadBuckets(r, slots[..b], m, true))
    decreases b
  {
    hide Sound, Indexed, Matches, LoadBucket, FileList, Listing, BucketList;
    if b == 0 {
      assert Before(s.newTable, 0, 0) == map[];
    } else {
      BucketsMatch(s, list, m, slots, b - 1, r);
      assert slots[..b][..b - 1] == slots[..b - 1];
      BucketMatch(s, list, m, b - 1, BUCKET_SIZE, LoadBuckets(r, slots[..b - 1], m, true));
      forall t | t in s.newTable ensures t.pos < BUCKET_SIZE { Occupied(s, t); }
      assert Before(s.newTable, b, 0) == Before(s.newTable, b - 1, BUCKET_SIZE);
    }
  }

  // ---------------------------------------------------------------- the results

  lemma Rebuilt(s: State)
    requires Inv(s)
    ensures Matches(s, FileList(s), |FileList(s)|, s.newTable, Positions(Save(s)))
  {
    hide Sound, Indexed, Matches, Listing, FileList, NewLength, Save, LoadNews, LoadTrieds, LoadBuckets, BucketList;
    var list, m, f := FileList(s), NewLength(s), Save(s);
    var s0 := Start(f);
    ListingHolds(s);
    Started(s, list, m, f, s0);
    Written(s);
    NewsMatch(s, list, m, f.news, |f.news|, s0);
    assert f.news[..|f.news|] == f.news;
    TriedsMatch(s, list, m, f.trieds, |f.trieds|, LoadNews(s0, f.news, true));
    assert f.trieds[..|f.trieds|] == f.trieds;
    BucketsMatch(s, list, m, f.slots, NEW_BUCKETS, Entries(f));
    CountsAreLengths(s, list, m);
    assert f.slots[..NEW_BUCKETS] == f.slots;
    forall t | t in s.newTable ensures t.bucket < NEW_BUCKETS { Occupied(s, t); }
    assert Before(s.newTable, NEW_BUCKETS, 0) == s.newTable;
  }

  lemma Started(s: State, list: seq<Id>, m: nat, f: File, s0: State)
    requires Inv(s) && Listing(s, list, m) && list == FileList(s) && m == NewLength(s) && f == Save(s)
    requires s0 == Start(f)
    ensures Matches(s, list, 0, map[], s0) && InList(s, list)
  {
    hide Sound, Indexed, Save, FileList, NewLength;
    CountsAreLengths(s, list, m);
    Written(s);
  }

  lemma Written(s: State)
    requires InList(s, FileList(s))
    ensures var f, list, m := Save(s), FileList(s), NewLength(s);
            && f.key == s.hasher && Usable(f) && f.newCount == s.newCount && f.triedCount == s.triedCount
            && |f.news| == m && |f.trieds| == |list| - m && |f.slots| == Buckets(f) == NEW_BUCKETS
            && (forall i | 0 <= i < m :: f.news[i] == ToSaved(s.infos[list[i]]))
            && (forall i | 0 <= i < |f.trieds| :: f.trieds[i] == ToSaved(s.infos[list[m + i]]))
            && (forall b | 0 <= b < NEW_BUCKETS :: f.slots[b] == BucketList(s, b, BUCKET_SIZE))
  {
    hide BucketList, Listed, FlipBit30;
    FlipTwice(NEW_BUCKETS);
  }

  /** An entry of the rebuilt state and the one it was. */
  lemma EntryOf(s: State, list: seq<Id>, m: nat, r: State, id: Id)
    requires Inv(s) && Listing(s, list, m) && Matches(s, list, |list|, s.newTable, r) && id in r.infos
    ensures 0 <= id.n < |list| && list[id.n] in s.infos && id == Id(id.n)
    ensures var i, j := r.infos[id], s.infos[list[id.n]];
            && ToSaved(i) == ToSaved(j) && i.inTried == j.inTried && i.refCount == j.refCount && i.randomPos == id.n
  {
    hide RandomOk, IdsOk, NewSlotsOk, TriedOk, NewIds, TriedIds, SlotsOf, IdsMatch, NewMatch, TriedMatch;
  }

  lemma RebuiltRandom(s: State, list: seq<Id>, m: nat, r: State)
    requires Inv(s) && Listing(s, list, m) && Matches(s, list, |list|, s.newTable, r)
    ensures RandomOk(r.infos, r.random)
  {
    hide Sound, Indexed, Listing, IdsMatch, NewMatch, TriedMatch, RandomOk, Image;
    forall id | id in r.infos ensures r.infos[id].randomPos == id.n { EntryOf(s, list, m, r, id); }
    Consecutive(r.infos, r.random, |list|);
  }

  lemma Consecutive(infos: map<Id, Info>, random: seq<Id>, k: nat)
    requires InOrder(k, random) && (forall id :: id in infos <==> 0 <= id.n < k)
    requires forall id | id in infos :: infos[id].randomPos == id.n
    ensures RandomOk(infos, random)
  {
    Injective(random);
    assert infos.Keys == set id | id in random by {
      forall id | id in infos ensures id in random { assert random[id.n] == id; }
    }
    assert |infos| == |infos.Keys|;
  }

  lemma RebuiltIds(s: State, list: seq<Id>, m: nat, r: State)
    requires Inv(s) && Listing(s, list, m) && Matches(s, list, |list|, s.newTable, r)
    ensures IdRange(r.infos, r.idCount) && IdsOk(r.infos, r.ids)
  {
    hide Sound, Indexed, NewMatch, TriedMatch, Image;
    forall id | id in r.infos ensures 0 <= id.n < |list| && r.infos[id].service == s.infos[list[id.n]].service {
      EntryOf(s, list, m, r, id);
    }
  }

  lemma RebuiltSlots(s: State, list: seq<Id>, m: nat, r: State)
    requires Inv(s) && Listing(s, list, m) && Matches(s, list, |list|, s.newTable, r)
    ensures NewSlotsOk(r.hasher, r.infos, r.newTable)
  {
    hide Sound, Indexed, Listing, IdsMatch, TriedMatch, Image;
    forall t | t in r.newTable
      ensures t.bucket < NEW_BUCKETS && r.newTable[t] in r.infos && !r.infos[r.newTable[t]].inTried
      ensures t.pos == r.hasher.Position(true, t.bucket, r.infos[r.newTable[t]].service)
    {
      Occupied(s, t);
      EntryOf(s, list, m, r, r.newTable[t]);
    }
  }

  /** The rebuilt entry is in the same slots. */
  lemma SameSlots(s: State, list: seq<Id>, m: nat, r: State, id: Id)
    requires Inv(s) && Listing(s, list, m) && Matches(s, list, |list|, s.newTable, r) && id in r.infos
    ensures 0 <= id.n < |list| && SlotsOf(r.newTable, id) == SlotsOf(s.newTable, list[id.n])
  {
    hide Sound, Indexed, IdsMatch, TriedMatch, Image;
    EntryOf(s, list, m, r, id);
  }

  lemma RebuiltCounts(s: State, list: seq<Id>, m: nat, r: State)
    requires Inv(s) && Listing(s, list, m) && Matches(s, list, |list|, s.newTable, r)
    ensures RefCountsOk(r.infos, r.newTable, {})
  {
    hide Sound, Indexed, Listing, Matches, SlotsOf;
    forall id | id in r.infos
      ensures r.infos[id].refCount == |SlotsOf(r.newTable, id)|
      ensures !r.infos[id].inTried ==> 1 <= r.infos[id].refCount <= NEW_BUCKETS_PER_ADDRESS
    {
      EntryOf(s, list, m, r, id);
      SameSlots(s, list, m, r, id);
      CountOf(s, list[id.n]);
    }
  }

  lemma CountOf(s: State, id: Id)
    requires Sound(s) && id in s.infos
    ensures s.infos[id].refCount == |SlotsOf(s.newTable, id)|
    ensures if s.infos[id].inTried then s.infos[id].refCount == 0 else 1 <= s.infos[id].refCount <= NEW_BUCKETS_PER_ADDRESS
  {
    hide RandomOk, IdsOk, NewSlotsOk, NewIds, TriedIds, SlotsOf;
  }

  lemma RebuiltTried(s: State, list: seq<Id>, m: nat, r: State)
    requires Inv(s) && Listing(s, list, m) && Matches(s, list, |list|, s.newTable, r)
    ensures TriedOk(r.hasher, r.infos, r.triedTable)
  {
    hide Sound, Indexed, Listing, IdsMatch, NewMatch, Image;
    forall t | t in r.triedTable
      ensures r.triedTable[t] in r.infos && r.infos[r.triedTable[t]].inTried && t == r.hasher.TriedSlot(r.infos[r.triedTable[t]].service)
    {
      EntryOf(s, list, m, r, r.triedTable[t]);
      TriedAt(s, t);
    }
    forall id | id in r.infos && r.infos[id].inTried
      ensures r.infos[id].refCount == 0
      ensures r.hasher.TriedSlot(r.infos[id].service) in r.triedTable && r.triedTable[r.hasher.TriedSlot(r.infos[id].service)] == id
    {
      EntryOf(s, list, m, r, id);
      CountOf(s, list[id.n]);
    }
  }

  lemma TriedAt(s: State, t: Slot)
    requires Sound(s) && t in s.triedTable
    ensures s.triedTable[t] in s.infos && s.infos[s.triedTable[t]].inTried && t == s.hasher.TriedSlot(s.infos[s.triedTable[t]].service)
  {
    hide RandomOk, IdsOk, NewSlotsOk, RefCountsOk, NewIds, TriedIds;
  }

  lemma RebuiltInv(s: State, list: seq<Id>, m: nat, r: State)
    requires Inv(s) && Listing(s, list, m) && Matches(s, list, |list|, s.newTable, r)
    ensures Inv(r)
  {
    hide RandomOk, IdRange, IdsOk, NewSlotsOk, RefCountsOk, TriedOk, NewIds, TriedIds;
    RebuiltRandom(s, list, m, r);
    RebuiltIds(s, list, m, r);
    RebuiltSlots(s, list, m, r);
    RebuiltCounts(s, list, m, r);
    RebuiltTried(s, list, m, r);
    RebuiltListing(s, list, m, r);
    CountsAreLengths(s, list, m);
    Lengths(r, r.random, m);
  }

  lemma RebuiltListing(s: State, list: seq<Id>, m: nat, r: State)
    requires Inv(s) && Listing(s, list, m) && Matches(s, list, |list|, s.newTable, r)
    ensures Listing(r, r.random, m) && |r.random| == |list|
  {
    hide Sound, Indexed, IdsMatch, NewMatch, TriedMatch, Image;
    forall id | id in r.infos ensures id == r.random[id.n] && (r.infos[id].inTried <==> id.n >= m) {
      EntryOf(s, list, m, r, id);
    }
  }

  /** Every entry got a slot, so none is deleted. */
  lemma {:induction false} NothingPruned(r: State, low: int, n: int)
    requires Sound(r) && Loaded(r)
    ensures Prune(r, low, n) == r
    decreases n - low
  {
    hide Sound, Loaded;
    if n > low {
      NothingPruned(r, low, n - 1);
      if Id(n - 1) in r.infos { CountOf(r, Id(n - 1)); }
    }
  }

  // --------------------------------------------------------------------- limits

  /** Distinct slots of a table of that many buckets. */
  lemma SlotsFit(slots: seq<Slot>, buckets: nat)
    requires forall i | 0 <= i < |slots| :: slots[i].bucket < buckets && slots[i].pos < BUCKET_SIZE
    requires forall i, j | 0 <= i < j < |slots| :: slots[i] != slots[j]
    ensures |slots| <= buckets * BUCKET_SIZE
  {
    var codes := seq(|slots|, i requires 0 <= i < |slots| => slots[i].bucket * BUCKET_SIZE + slots[i].pos);
    Pigeonhole(codes, buckets * BUCKET_SIZE);
  }

  /** Some slot of a new entry. */
  ghost function SomeSlot(s: State, id: Id): (t: Slot)
    requires Sound(s) && id in s.infos && !s.infos[id].inTried
    ensures t in s.newTable && s.newTable[t] == id
  {
    CountOf(s, id);
    var t :| t in SlotsOf(s.newTable, id); t
  }

  /** The limits that Unserialize puts on the counts are never exceeded. */
  lemma WithinLimits(s: State, list: seq<Id>, m: nat)
    requires Sound(s) && Listing(s, list, m)
    ensures m <= NEW_BUCKETS * BUCKET_SIZE && |list| - m <= TRIED_BUCKETS * BUCKET_SIZE
  {
    hide Sound;
    var news := seq(m, i requires 0 <= i < m => SomeSlot(s, list[i]));
    forall i | 0 <= i < m ensures news[i].bucket < NEW_BUCKETS && news[i].pos < BUCKET_SIZE { Occupied(s, news[i]); }
    forall i, j | 0 <= i < j < m ensures news[i] != news[j] { assert s.newTable[news[i]] == list[i] && s.newTable[news[j]] == list[j]; }
    SlotsFit(news, NEW_BUCKETS);
    var trieds := seq(|list| - m, i requires 0 <= i < |list| - m => s.hasher.TriedSlot(s.infos[list[m + i]].service));
    forall i, j | 0 <= i < j < |trieds| ensures trieds[i] != trieds[j] {
      TriedHas(s, list[m + i]);
      TriedHas(s, list[m + j]);
    }
    forall i | 0 <= i < |trieds| ensures trieds[i].bucket < TRIED_BUCKETS && trieds[i].pos < BUCKET_SIZE {
      TriedRange(s.hasher, s.infos[list[m + i]].service);
    }
    SlotsFit(trieds, TRIED_BUCKETS);
  }

  lemma TriedRange(h: Hasher, svc: Service)
    ensures h.TriedSlot(svc).bucket < TRIED_BUCKETS && h.TriedSlot(svc).pos < BUCKET_SIZE
  {
  }

  lemma TriedHas(s: State, id: Id)
    requires Sound(s) && id in s.infos && s.infos[id].inTried
    ensures var t := s.hasher.TriedSlot(s.infos[id].service); t in s.triedTable && s.triedTable[t] == id
  {
    hide RandomOk, IdsOk, NewSlotsOk, RefCountsOk, NewIds, TriedIds;
  }

  // ----------------------------------------------------------------- round trip

  /** r has the entries of s, entry list[i] under id i, in the same slots of both tables and with
      the same counts; only the times of attempts are forgotten. */
  ghost predicate Renamed(s: State, r: State, list: seq<Id>) {
    && (forall i, j | 0 <= i < j < |list| :: list[i] != list[j]) && (forall id :: id in s.infos <==> id in list)
    && (forall id :: id in r.infos <==> 0 <= id.n < |list|)
    && (forall id | id in r.infos ::
          && ToSaved(r.infos[id]) == ToSaved(s.infos[list[id.n]])
          && r.infos[id].inTried == s.infos[list[id.n]].inTried && r.infos[id].refCount == s.infos[list[id.n]].refCount)
    && r.newTable.Keys == s.newTable.Keys && r.triedTable.Keys == s.triedTable.Keys
    && (forall t | t in r.newTable :: 0 <= r.newTable[t].n < |list| && list[r.newTable[t].n] == s.newTable[t])
    && (forall t | t in r.triedTable :: 0 <= r.triedTable[t].n < |list| && list[r.triedTable[t].n] == s.triedTable[t])
    && r.newCount == s.newCount && r.triedCount == s.triedCount && r.hasher == s.hasher
  }

  lemma TriedKeys(s: State, list: seq<Id>, m: nat, r: State)
    requires Inv(s) && Listing(s, list, m) && Matches(s, list, |list|, s.newTable, r)
    ensures r.triedTable.Keys == s.triedTable.Keys
  {
    hide Sound, Indexed, InfosMatch, IdsMatch, NewMatch;
    forall t | t in s.triedTable ensures t in r.triedTable {
      TriedAt(s, t);
      var i :| 0 <= i < |list| && list[i] == s.triedTable[t];
    }
  }

  lemma MatchIsRenaming(s: State, list: seq<Id>, m: nat, r: State)
    requires Inv(s) && Listing(s, list, m) && Matches(s, list, |list|, s.newTable, r)
    ensures Renamed(s, r, list)
  {
    hide Sound, Indexed, IdsMatch, Image;
    TriedKeys(s, list, m, r);
    forall id | id in r.infos
      ensures ToSaved(r.infos[id]) == ToSaved(s.infos[list[id.n]])
      ensures r.infos[id].inTried == s.infos[list[id.n]].inTried && r.infos[id].refCount == s.infos[list[id.n]].refCount
    {
      EntryOf(s, list, m, r, id);
    }
  }

  /** Saving and loading loses nothing and re-establishes the invariant. */
  lemma RoundTrip(s: State)
    requires Inv(s)
    ensures Framed(Save(s)) && !Rejects(Save(s)) && Inv(Load(Save(s))) && Renamed(s, Load(Save(s)), FileList(s))
  {
    hide Sound, Indexed, Matches, Listing, FileList, NewLength, Save, Positions, Loaded, Renamed, Prune;
    var list, m, f := FileList(s), NewLength(s), Save(s);
    ListingHolds(s);
    WithinLimits(s, list, m);
    CountsAreLengths(s, list, m);
    WrittenSizes(s, list, m);
    Rebuilt(s);
    var r := Positions(f);
    RebuiltInv(s, list, m, r);
    MatchIsRenaming(s, list, m, r);
    PositionsLoaded(f);
    NothingPruned(r, LowId(f), r.idCount);
  }

  lemma WrittenSizes(s: State, list: seq<Id>, m: nat)
    requires Listing(s, list, m) && list == FileList(s) && m == NewLength(s) && s.newCount == m && s.triedCount == |list| - m
    ensures var f := Save(s);
            && Framed(f) && f.keySize == 32 && f.newCount == |f.news| == m && f.triedCount == |f.trieds| == |list| - m && |f.slots| == Buckets(f)
  {
    hide BucketList, Listed, FlipBit30;
    Written(s);
  }
}
