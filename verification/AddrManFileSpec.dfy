/** peers.dat (src/addrman.h, CAddrMan::Serialize and Unserialize) as functions: the tried table,
    the address index, the random order and the reference counts are not written but rebuilt. */
module AddrManFileSpec {
  import opened AddrManSpec
  import opened AddrManProofs

  /** The fields of an entry that are written. */
  datatype Saved = Saved(service: Service, services: bv64, time: int, source: NetAddr, lastSuccess: int, attempts: int)

  /** The contents of the file.  The counts are signed, and the lists are what follows of the
      announced entries and buckets: fewer if the file ends too soon. */
  datatype File = File(version: nat, keySize: nat, key: Hasher, newCount: int, triedCount: int, bucketWord: int,
                       news: seq<Saved>, trieds: seq<Saved>, slots: seq<seq<int>>)

  const BIT30: int := 0x4000_0000

  /** The exclusive or with 2^30, of a signed number of 32 bits. */
  function FlipBit30(w: int): int { if w / BIT30 % 2 == 1 then w - BIT30 else w + BIT30 }

  lemma FlipTwice(w: int)
    ensures FlipBit30(FlipBit30(w)) == w
  {
  }

  /** The number of buckets; the bit marks a format that knows about the version. */
  function Buckets(f: File): int { if f.version != 0 then FlipBit30(f.bucketWord) else f.bucketWord }

  /** A negative count announces nothing. */
  function Announced(n: int): nat { if n < 0 then 0 else n }

  ghost predicate Framed(f: File) {
    |f.news| <= Announced(f.newCount) && |f.trieds| <= Announced(f.triedCount) && |f.slots| <= Announced(Buckets(f))
  }

  // --------------------------------------------------------------------- saving

  function ToSaved(i: Info): Saved { Saved(i.service, i.services, i.time, i.source, i.lastSuccess, i.attempts) }

  /** The new (or tried) entries with ids below n, in the order of their ids. */
  function Listed(infos: map<Id, Info>, n: int, tried: bool): seq<Id> {
    if n <= 0 then []
    else
      var rest := Listed(infos, n - 1, tried);
      if Id(n - 1) in infos && Picked(infos[Id(n - 1)], tried) then rest + [Id(n - 1)] else rest
  }

  predicate Picked(i: Info, tried: bool) { if tried then i.inTried else i.refCount != 0 }

  /** The number under which a new entry is written. */
  function Rank(infos: map<Id, Info>, id: Id): nat { if id.n < 0 then 0 else |Listed(infos, id.n, false)| }

  function BucketList(s: State, bucket: nat, n: nat): seq<int> {
    if n == 0 then []
    else
      var rest := BucketList(s, bucket, n - 1);
      var t := Slot(bucket, n - 1);
      if t in s.newTable then rest + [Rank(s.infos, s.newTable[t])] else rest
  }

  function SaveAll(infos: map<Id, Info>, list: seq<Id>): (r: seq<Saved>)
    requires forall i | 0 <= i < |list| :: list[i] in infos
  {
    seq(|list|, i requires 0 <= i < |list| => ToSaved(infos[list[i]]))
  }

  function Save(s: State): File {
    ListedIn(s.infos, s.idCount, false);
    ListedIn(s.infos, s.idCount, true);
    File(1, 32, s.hasher, s.newCount, s.triedCount, FlipBit30(NEW_BUCKETS), SaveAll(s.infos, Listed(s.infos, s.idCount, false)), SaveAll(s.infos, Listed(s.infos, s.idCount, true)),
         seq(NEW_BUCKETS, b requires b >= 0 => BucketList(s, b, BUCKET_SIZE)))
  }

  /** The assertions of Serialize: when an entry is written, as many as announced were not yet. */
  ghost predicate CanSave(s: State) {
    forall id, tried | id in s.infos && Picked(s.infos[id], tried) ::
      |Listed(s.infos, id.n, tried)| != if tried then s.triedCount else s.newCount
  }

  // -------------------------------------------------------------------- loading

  /** A size is wrong, or the file ends too soon. */
  predicate Rejects(f: File) {
    || f.keySize != 32 || f.newCount > NEW_BUCKETS * BUCKET_SIZE || f.triedCount > TRIED_BUCKETS * BUCKET_SIZE
    || |f.news| < f.newCount || |f.trieds| < f.triedCount || |f.slots| < Buckets(f)
  }

  /** Whether the positions in the new table can be used. */
  predicate Usable(f: File) { f.version == 1 && Buckets(f) == NEW_BUCKETS }

  function Restored(v: Saved, randomPos: int, inTried: bool): Info {
    Info(v.service, v.services, v.time, v.source, 0, 0, v.lastSuccess, v.attempts, 0, inTried, randomPos)
  }

  function Append(s: State, v: Saved, inTried: bool): State {
    var id := Id(s.idCount);
    s.(idCount := s.idCount + 1, infos := s.infos[id := Restored(v, |s.random|, inTried)],
       ids := s.ids[v.service.addr := id], random := s.random + [id])
  }

  function LoadNew(s: State, v: Saved, usable: bool): State {
    var s1 := Append(s, v, false);
    var t := s.hasher.NewSlot(v.service, v.source);
    if usable || t in s1.newTable then s1 else PlaceNew(s1, t, Id(s.idCount))
  }

  function LoadNews(s: State, news: seq<Saved>, usable: bool): State {
    if news == [] then s else LoadNew(LoadNews(s, news[..|news| - 1], usable), news[|news| - 1], usable)
  }

  /** A tried entry whose slot is taken is lost.  One with the id that marks empty slots leaves its
      slot looking empty. */
  function LoadTried(s: State, v: Saved): State {
    var t, id := s.hasher.TriedSlot(v.service), Id(s.idCount);
    if t in s.triedTable then s.(triedCount := s.triedCount - 1)
    else Append(s, v, true).(triedTable := if id == NO_ID then s.triedTable else s.triedTable[t := id])
  }

  function LoadTrieds(s: State, trieds: seq<Saved>): State {
    if trieds == [] then s else LoadTried(LoadTrieds(s, trieds[..|trieds| - 1]), trieds[|trieds| - 1])
  }

  function LoadSlot(s: State, bucket: nat, index: int, count: int, usable: bool): State {
    if 0 <= index < count && Id(index) in s.infos then
      var t := Slot(bucket, s.hasher.Position(true, bucket, s.infos[Id(index)].service));
      if usable && t !in s.newTable && s.infos[Id(index)].refCount < NEW_BUCKETS_PER_ADDRESS
      then PlaceNew(s, t, Id(index)) else s
    else s
  }

  function LoadBucket(s: State, bucket: nat, list: seq<int>, count: int, usable: bool): State {
    if list == [] then s
    else LoadSlot(LoadBucket(s, bucket, list[..|list| - 1], count, usable), bucket, list[|list| - 1], count, usable)
  }

  function LoadBuckets(s: State, slots: seq<seq<int>>, count: int, usable: bool): State {
    if slots == [] then s
    else LoadBucket(LoadBuckets(s, slots[..|slots| - 1], count, usable), |slots| - 1, slots[|slots| - 1], count, usable)
  }

  /** Positions and ids are in order, which is all that the deletions rely on. */
  ghost predicate Loaded(s: State) {
    RandomOk(s.infos, s.random) && forall id | id in s.infos :: id.n < s.idCount
  }

  /** Entries with ids from low to below n that got no slot are deleted. */
  ghost function Prune(s: State, low: int, n: int): (r: State)
    requires Loaded(s)
    ensures Loaded(r)
    decreases n - low
  {
    if n <= low then s
    else
      var s1 := Prune(s, low, n - 1);
      var id := Id(n - 1);
      if id in s1.infos && !s1.infos[id].inTried && s1.infos[id].refCount == 0
      then DeleteLoaded(s1, id); Delete(s1, id) else s1
  }

  /** The id of the first entry: the count of new entries is the id of the first tried one. */
  function LowId(f: File): int { if f.newCount < 0 then f.newCount else 0 }

  function Start(f: File): State { Empty(f.key).(newCount := f.newCount, triedCount := f.triedCount, idCount := LowId(f)) }

  function Entries(f: File): State { LoadTrieds(LoadNews(Start(f), f.news, Usable(f)), f.trieds) }

  function Positions(f: File): State { LoadBuckets(Entries(f), f.slots, f.newCount, Usable(f)) }

  ghost function Load(f: File): State {
    PositionsLoaded(f);
    Prune(Positions(f), LowId(f), Positions(f).idCount)
  }

  // ----------------------------------------------- any file can be loaded safely

  lemma DeleteLoaded(s: State, id: Id)
    requires Loaded(s) && id in s.infos && !s.infos[id].inTried && s.infos[id].refCount == 0
    ensures CanDelete(s, id) && Loaded(Delete(s, id))
  {
    hide RandomOk, SwapRandom;
    InRandom(s, id);
    var i, last := s.infos[id].randomPos, |s.random| - 1;
    SwapLast(s, i);
    SwappedRandom(s, i, last);
    RemoveLast(SwapRandom(s, i, last).infos, SwapRandom(s, i, last).random, id);
  }

  lemma InRandom(s: State, id: Id)
    requires RandomOk(s.infos, s.random) && id in s.infos
    ensures 0 <= s.infos[id].randomPos < |s.random| && s.random[s.infos[id].randomPos] == id
  {
  }

  lemma SwappedRandom(s: State, i: int, j: int)
    requires RandomOk(s.infos, s.random) && 0 <= i < |s.random| && 0 <= j < |s.random|
    ensures CanSwap(s, i, j) && RandomOk(SwapRandom(s, i, j).infos, SwapRandom(s, i, j).random) && SwapRandom(s, i, j).idCount == s.idCount
  {
    hide RandomOk, SwapRandom;
    if i != j {
      SwapEffect(s, i, j);
      SwapRandomOk(s.infos, SwapRandom(s, i, j).infos, s.random, i, j);
      SwapOrder(s, i, j);
    } else {
      SwapNone(s, i);
      AtRandom(s, i);
    }
  }

  lemma AtRandom(s: State, i: int)
    requires RandomOk(s.infos, s.random) && 0 <= i < |s.random|
    ensures s.random[i] in s.infos
  {
  }

  lemma SwapOrder(s: State, i: int, j: int)
    requires i != j && CanSwap(s, i, j)
    ensures SwapRandom(s, i, j).random == s.random[i := s.random[j]][j := s.random[i]] && SwapRandom(s, i, j).idCount == s.idCount
  {
  }

  lemma SwapNone(s: State, i: int)
    ensures SwapRandom(s, i, i) == s
  {
  }

  lemma AppendLoaded(s: State, v: Saved, inTried: bool)
    requires Loaded(s)
    ensures Loaded(Append(s, v, inTried)) && Id(s.idCount) !in s.infos
  {
    NewEntryRandom(s.infos, s.random, Id(s.idCount), Restored(v, |s.random|, inTried));
  }

  lemma PlaceLoaded(s: State, t: Slot, id: Id)
    requires Loaded(s) && id in s.infos
    ensures Loaded(PlaceNew(s, t, id))
  {
    hide RandomOk;
    RewriteOk(s.infos, s.random, id, s.infos[id].(refCount := s.infos[id].refCount + 1));
  }

  lemma {:induction false} NewsLoaded(s: State, news: seq<Saved>, usable: bool)
    requires Loaded(s)
    ensures Loaded(LoadNews(s, news, usable))
  {
    hide Loaded, PlaceNew;
    if news != [] {
      var v := news[|news| - 1];
      NewsLoaded(s, news[..|news| - 1], usable);
      var s1 := LoadNews(s, news[..|news| - 1], usable);
      AppendLoaded(s1, v, false);
      if !usable { PlaceLoaded(Append(s1, v, false), s1.hasher.NewSlot(v.service, v.source), Id(s1.idCount)); }
    }
  }

  lemma {:induction false} TriedsLoaded(s: State, trieds: seq<Saved>)
    requires Loaded(s)
    ensures Loaded(LoadTrieds(s, trieds))
  {
    if trieds != [] {
      TriedsLoaded(s, trieds[..|trieds| - 1]);
      AppendLoaded(LoadTrieds(s, trieds[..|trieds| - 1]), trieds[|trieds| - 1], true);
    }
  }

  lemma {:induction false} BucketLoaded(s: State, bucket: nat, list: seq<int>, count: int, usable: bool)
    requires Loaded(s)
    ensures Loaded(LoadBucket(s, bucket, list, count, usable))
  {
    hide Loaded, PlaceNew;
    if list != [] {
      BucketLoaded(s, bucket, list[..|list| - 1], count, usable);
      var s1, i := LoadBucket(s, bucket, list[..|list| - 1], count, usable), Id(list[|list| - 1]);
      if i in s1.infos { PlaceLoaded(s1, Slot(bucket, s1.hasher.Position(true, bucket, s1.infos[i].service)), i); }
    }
  }

  lemma {:induction false} BucketsLoaded(s: State, slots: seq<seq<int>>, count: int, usable: bool)
    requires Loaded(s)
    ensures Loaded(LoadBuckets(s, slots, count, usable))
  {
    hide Loaded, LoadBucket;
    if slots != [] {
      var n := |slots| - 1;
      BucketsLoaded(s, slots[..n], count, usable);
      BucketLoaded(LoadBuckets(s, slots[..n], count, usable), n, slots[n], count, usable);
    }
  }

  lemma PositionsLoaded(f: File)
    ensures Loaded(Positions(f))
  {
    assert Loaded(Start(f));
    hide Loaded, LoadNews, LoadTrieds, LoadBuckets, Start;
    NewsLoaded(Start(f), f.news, Usable(f));
    TriedsLoaded(LoadNews(Start(f), f.news, Usable(f)), f.trieds);
    BucketsLoaded(Entries(f), f.slots, f.newCount, Usable(f));
  }

  // ------------------------------------------------------------------- listings

  /** A list of picked entries with ids below n, in order. */
  ghost predicate Ordered(infos: map<Id, Info>, n: int, tried: bool, list: seq<Id>) {
    && (forall i | 0 <= i < |list| :: list[i] in infos && 0 <= list[i].n < n && Picked(infos[list[i]], tried))
    && (forall i, j | 0 <= i < j < |list| :: list[i].n < list[j].n)
  }

  lemma {:induction false} ListedIn(infos: map<Id, Info>, n: int, tried: bool)
    ensures Ordered(infos, n, tried, Listed(infos, n, tried))
  {
    if n > 0 { ListedIn(infos, n - 1, tried); }
  }

  /** Every picked entry is listed, after as many as precede it. */
  lemma {:induction false} ListedAt(infos: map<Id, Info>, n: int, tried: bool, id: Id)
    requires id in infos && 0 <= id.n < n && Picked(infos[id], tried)
    ensures var list, k := Listed(infos, n, tried), |Listed(infos, id.n, tried)|; k < |list| && list[k] == id
  {
    if id.n < n - 1 { ListedAt(infos, n - 1, tried, id); }
  }
}
