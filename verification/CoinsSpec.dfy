/** The values cached by the coin views (src/coins.h), and the plain map that a stack of
    caches stands for. */
module CoinsSpec {
  import opened Streams

  datatype Txid = Txid(n: nat)
  datatype BlockHash = NullHash | BlockHash(n: nat)

  datatype TxOut = TxOut(value: int, script: Bytes)
  {
    predicate IsNull() { value == -1 }
  }

  datatype Coins = Coins(coinbase: bool, vout: seq<TxOut>, height: int, version: int)
  {
    /** Whether every output is spent. */
    predicate IsPruned() { forall i | 0 <= i < |vout| :: vout[i].IsNull() }
  }

  const NO_COINS: Coins := Coins(false, [], 0, 0)

  /** The outputs without the spent ones at the end. */
  function Trim(vout: seq<TxOut>): seq<TxOut> {
    if |vout| > 0 && vout[|vout| - 1].IsNull() then Trim(vout[..|vout| - 1]) else vout
  }

  function Cleanup(c: Coins): Coins { c.(vout := Trim(c.vout)) }

  lemma {:induction false} TrimOnlyDropsSpent(vout: seq<TxOut>)
    ensures Trim(vout) <= vout
    ensures forall i | |Trim(vout)| <= i < |vout| :: vout[i].IsNull()
    ensures Trim(vout) != [] ==> !Trim(vout)[|Trim(vout)| - 1].IsNull()
  {
    if |vout| > 0 && vout[|vout| - 1].IsNull() { TrimOnlyDropsSpent(vout[..|vout| - 1]); }
  }

  lemma CleanupKeepsPruned(c: Coins)
    ensures Cleanup(c).IsPruned() <==> c.IsPruned()
  {
    TrimOnlyDropsSpent(c.vout);
  }

  /** No spent output at the end, as Cleanup leaves it. */
  predicate Tidy(c: Coins) { c.vout != [] ==> !c.vout[|c.vout| - 1].IsNull() }

  /** Tidy coins are pruned exactly when they have no outputs at all. */
  lemma TidyPruned(c: Coins)
    requires Tidy(c)
    ensures c.vout == [] <==> c.IsPruned()
  {
    if c.vout != [] { assert !c.vout[|c.vout| - 1].IsNull(); }
  }

  lemma CleanupTidy(c: Coins)
    ensures Tidy(Cleanup(c))
  {
    TrimOnlyDropsSpent(c.vout);
  }

  datatype Entry = Entry(coins: Coins, isDirty: bool, isFresh: bool)

  type CoinsMap = map<Txid, Coins>
  type EntryMap = map<Txid, Entry>

  /** A plain map never holds pruned coins: they read as absent. */
  function Put(m: CoinsMap, t: Txid, c: Coins): CoinsMap {
    if c.IsPruned() then m - {t} else m[t := c]
  }

  function Unpruned(m: CoinsMap): CoinsMap { map t | t in m && !m[t].IsPruned() :: m[t] }

  /** What a cache shows over the map below it. */
  function Overlay(cache: EntryMap, below: CoinsMap): CoinsMap {
    map t | t in cache.Keys + below.Keys && (t in cache ==> !cache[t].coins.IsPruned())
      :: if t in cache then cache[t].coins else below[t]
  }

  /** The meaning of the flags: a FRESH entry is absent below, and an entry that is not
      DIRTY is what lies below. */
  predicate EntryOk(e: Entry, t: Txid, below: CoinsMap) {
    && (e.isFresh ==> t !in below)
    && (!e.isDirty ==> if e.coins.IsPruned() then t !in below else t in below && below[t] == e.coins)
  }

  ghost predicate Coherent(cache: EntryMap, below: CoinsMap) {
    forall t | t in cache :: EntryOk(cache[t], t, below)
  }

  /** Entries are tidy, but for one that is being modified. */
  ghost predicate TidyBut(cache: EntryMap, busy: Option<Txid>) {
    forall t | t in cache && busy != Some(t) :: Tidy(cache[t].coins)
  }

  ghost predicate TidyMap(m: CoinsMap) { forall t | t in m :: Tidy(m[t]) }

  /** The answer of GetCoins agrees with the plain map. */
  predicate Reads(r: Option<Coins>, m: CoinsMap, t: Txid) {
    match r
    case None => t !in m
    case Some(c) => if c.IsPruned() then t !in m else t in m && m[t] == c
  }

  lemma MergeTidy(cache: EntryMap, t: Txid, e: Entry)
    requires TidyBut(cache, None) && Tidy(e.coins)
    ensures TidyBut(Merge(cache, t, e), None)
  {
  }

  /** Overlaying one more entry writes it, or changes nothing if it is not dirty. */
  lemma OverlayStep(done: EntryMap, below: CoinsMap, t: Txid, e: Entry)
    requires t !in done && EntryOk(e, t, below)
    ensures Overlay(done[t := e], below) ==
            if e.isDirty then Put(Overlay(done, below), t, e.coins) else Overlay(done, below)
  {
  }

  lemma UnprunedPut(m: CoinsMap, t: Txid, c: Coins)
    ensures Unpruned(m[t := c]) == Put(Unpruned(m), t, c)
    ensures c.IsPruned() ==> Unpruned(m - {t}) == Put(Unpruned(m), t, c)
  {
  }

  /** The entries still to write are some of the entries of the child. */
  ghost predicate Rest(entries: EntryMap, todo: EntryMap) {
    todo.Keys <= entries.Keys && forall t | t in todo :: todo[t] == entries[t]
  }

  /** The entries already written. */
  ghost function Done(entries: EntryMap, todo: EntryMap): EntryMap { entries - todo.Keys }

  lemma RestEnds(entries: EntryMap)
    ensures Rest(entries, entries) && Done(entries, entries) == map[] && Done(entries, map[]) == entries
  {
  }

  lemma RestStep(entries: EntryMap, todo: EntryMap, t: Txid)
    requires Rest(entries, todo) && t in todo
    ensures t in entries && todo[t] == entries[t] && t !in Done(entries, todo)
    ensures Rest(entries, todo - {t}) && Done(entries, todo - {t}) == Done(entries, todo)[t := todo[t]]
    ensures |todo - {t}| < |todo|
  {
    assert (todo - {t}).Keys == todo.Keys - {t};
    assert |todo - {t}| == |todo.Keys - {t}|;
  }

  lemma OverlayNothing(below: CoinsMap)
    ensures Overlay(map[], below) == below
  {
  }

  // ----------------------------------------------------------------- best blocks

  /** The best block that a stack shows, from the hashes its views hold, topmost first: a cache that
      holds none asks the view below. */
  function FirstSet(h: seq<BlockHash>): BlockHash {
    if h == [] then NullHash else if |h| == 1 || !h[0].NullHash? then h[0] else FirstSet(h[1..])
  }

  /** Asking makes the caches on the way remember the answer. */
  function Learnt(h: seq<BlockHash>): seq<BlockHash> {
    if |h| <= 1 || !h[0].NullHash? then h else [FirstSet(h)] + Learnt(h[1..])
  }

  /** A flush hands the hash of the topmost cache down; only the database, at the bottom, ignores
      that there is none. */
  function HandedDown(h: seq<BlockHash>): seq<BlockHash> {
    if |h| < 2 || (|h| == 2 && h[0].NullHash?) then h else h[1 := h[0]]
  }

  function Lower(h: seq<BlockHash>): seq<BlockHash> { if h == [] then [] else h[1..] }

  lemma FirstSetNext(x: BlockHash, rest: seq<BlockHash>)
    ensures FirstSet([x] + rest) == if rest == [] || !x.NullHash? then x else FirstSet(rest)
    ensures Learnt([x] + rest) == if rest == [] || !x.NullHash? then [x] + rest else [FirstSet(rest)] + Learnt(rest)
    ensures Lower([x] + rest) == rest
  {
    assert ([x] + rest)[1..] == rest;
  }

  /** Asking changes nothing that is shown, and then a flush does not either, at the top or below. */
  lemma {:induction false} LearntShows(h: seq<BlockHash>)
    requires |h| >= 2
    ensures |Learnt(h)| == |h| && FirstSet(Learnt(h)) == FirstSet(h)
    ensures FirstSet(HandedDown(Learnt(h))) == FirstSet(h) && FirstSet(Lower(HandedDown(Learnt(h)))) == FirstSet(h)
  {
    var l := Learnt(h);
    if !h[0].NullHash? {
      assert HandedDown(h)[1..][0] == h[0];
    } else {
      if |h| > 2 { LearntShows(h[1..]); }
      assert l[1..] == Learnt(h[1..]);
      if FirstSet(h).NullHash? {
        AllNull(h);
      } else {
        assert HandedDown(l)[1..][0] == l[0];
      }
    }
  }

  lemma {:induction false} AllNull(h: seq<BlockHash>)
    requires |h| >= 1 && FirstSet(h).NullHash?
    ensures forall i | 0 <= i < |h| :: h[i].NullHash?
    ensures Learnt(h) == h && (|h| >= 2 ==> HandedDown(h) == h)
  {
    if |h| > 1 {
      AllNull(h[1..]);
      assert h == [h[0]] + h[1..];
      assert forall i | 1 <= i < |h| :: h[i] == h[1..][i - 1];
    }
  }

  // ----------------------------------------------------- single cache updates

  /** Remembering an answer of the view below changes nothing. */
  lemma FetchStep(cache: EntryMap, below: CoinsMap, t: Txid, c: Coins, isDirty: bool)
    requires Coherent(cache, below) && t !in cache && Reads(Some(c), below, t)
    ensures Coherent(cache[t := Entry(c, isDirty, c.IsPruned())], below)
    ensures Overlay(cache[t := Entry(c, isDirty, c.IsPruned())], below) == Overlay(cache, below)
  {
  }

  lemma MissStep(cache: EntryMap, below: CoinsMap, t: Txid)
    requires Coherent(cache, below) && t !in cache && t !in below
    ensures Coherent(cache[t := Entry(NO_COINS, true, true)], below)
    ensures Overlay(cache[t := Entry(NO_COINS, true, true)], below) == Overlay(cache, below)
  {
    assert NO_COINS.IsPruned();
  }

  /** Writing through a dirty entry. */
  lemma WriteStep(cache: EntryMap, below: CoinsMap, t: Txid, e: Entry)
    requires Coherent(cache, below) && e.isDirty && (e.isFresh ==> t !in below)
    ensures Coherent(cache[t := e], below)
    ensures Overlay(cache[t := e], below) == Put(Overlay(cache, below), t, e.coins)
  {
  }

  /** Forgetting an entry that shows what lies below. */
  lemma EraseStep(cache: EntryMap, below: CoinsMap, t: Txid)
    requires Coherent(cache, below) && t in cache
    requires (cache[t].isFresh && cache[t].coins.IsPruned()) || !cache[t].isDirty
    ensures Coherent(cache - {t}, below)
    ensures Overlay(cache - {t}, below) == Overlay(cache, below)
  {
  }

  /** What BatchWrite does with a dirty entry e of the child for t. */
  function Merge(cache: EntryMap, t: Txid, e: Entry): EntryMap {
    if t !in cache then
      if e.isFresh && e.coins.IsPruned() then cache else cache[t := Entry(e.coins, true, e.isFresh)]
    else if cache[t].isFresh && e.coins.IsPruned() then cache - {t}
    else cache[t := Entry(e.coins, true, cache[t].isFresh)]
  }

  lemma DropFresh(cache: EntryMap, below: CoinsMap, t: Txid)
    requires Coherent(cache, below) && t in cache && cache[t].isFresh
    ensures Coherent(cache - {t}, below)
    ensures Overlay(cache - {t}, below) == Overlay(cache, below) - {t}
  {
    assert EntryOk(cache[t], t, below);
  }

  lemma OverlayAt(cache: EntryMap, below: CoinsMap, t: Txid)
    ensures t in Overlay(cache, below) <==>
            if t in cache then !cache[t].coins.IsPruned() else t in below
  {
  }

  /** Merging shows the child's coins, and a FRESH entry never meets spendable coins. */
  lemma MergeStep(cache: EntryMap, below: CoinsMap, t: Txid, e: Entry)
    requires Coherent(cache, below) && e.isDirty && EntryOk(e, t, Overlay(cache, below))
    ensures t in cache && e.isFresh ==> cache[t].coins.IsPruned()
    ensures Coherent(Merge(cache, t, e), below)
    ensures Overlay(Merge(cache, t, e), below) == Put(Overlay(cache, below), t, e.coins)
  {
    OverlayAt(cache, below, t);
    if t in cache { assert EntryOk(cache[t], t, below); }
    hide Overlay, Coherent;
    if t !in cache {
      if e.isFresh && e.coins.IsPruned() {
        assert Overlay(cache, below) - {t} == Overlay(cache, below);
      } else {
        WriteStep(cache, below, t, Entry(e.coins, true, e.isFresh));
      }
    } else if cache[t].isFresh && e.coins.IsPruned() {
      DropFresh(cache, below, t);
    } else {
      WriteStep(cache, below, t, Entry(e.coins, true, cache[t].isFresh));
    }
  }

  lemma MarkStep(cache: EntryMap, below: CoinsMap, t: Txid)
    requires Coherent(cache, below) && t in cache
    ensures Coherent(cache[t := cache[t].(isDirty := true)], below)
    ensures Overlay(cache[t := cache[t].(isDirty := true)], below) == Overlay(cache, below)
  {
  }

  lemma FreshStep(cache: EntryMap, below: CoinsMap, t: Txid)
    requires Coherent(cache, below) && t in cache
    ensures cache[t].isFresh ==> t !in below
  {
  }

  /** A blank dirty entry hides t, and is coherent exactly when its FRESH flag is truthful. */
  lemma BlankStep(cache: EntryMap, below: CoinsMap, t: Txid, e: Entry)
    requires Coherent(cache, below) && e.isDirty && e.coins == NO_COINS
    ensures Overlay(cache[t := e], below) == Overlay(cache, below) - {t}
    ensures Coherent(cache[t := e], below) <==> (e.isFresh ==> t !in below)
    ensures t in cache ==> (cache[t].isFresh ==> t !in below)
  {
    assert NO_COINS.IsPruned();
    if t in cache { assert EntryOk(cache[t], t, below); }
    var cache' := cache[t := e];
    if !(e.isFresh ==> t !in below) { assert !EntryOk(cache'[t], t, below); }
  }

  lemma Lookup(entries: EntryMap, below: CoinsMap, t: Txid)
    requires Coherent(entries, below) && t in entries
    ensures EntryOk(entries[t], t, below)
  {
  }

  /** One iteration of BatchWrite over a truthful child, in the database. */
  lemma WriteNext(entries: EntryMap, todo: EntryMap, view: CoinsMap, t: Txid)
    requires Rest(entries, todo) && t in todo && Coherent(entries, view)
    ensures Overlay(Done(entries, todo - {t}), view) ==
            if todo[t].isDirty then Put(Overlay(Done(entries, todo), view), t, todo[t].coins)
            else Overlay(Done(entries, todo), view)
  {
    RestStep(entries, todo, t);
    Lookup(entries, view, t);
    OverlayStep(Done(entries, todo), view, t, todo[t]);
  }

  /** One iteration of BatchWrite over a truthful child, in a cache. */
  lemma MergeNext(entries: EntryMap, todo: EntryMap, cache: EntryMap, below: CoinsMap, view: CoinsMap, t: Txid)
    requires Rest(entries, todo) && t in todo
    requires Coherent(entries, view) && Coherent(cache, below)
    requires Overlay(cache, below) == Overlay(Done(entries, todo), view)
    ensures var e := todo[t];
      var cache' := if e.isDirty then Merge(cache, t, e) else cache;
      && (e.isDirty && t in cache && e.isFresh ==> cache[t].coins.IsPruned())
      && Coherent(cache', below)
      && Overlay(cache', below) == Overlay(Done(entries, todo - {t}), view)
  {
    hide Overlay, Coherent, EntryOk, Put, Rest, Done;
    RestStep(entries, todo, t);
    Lookup(entries, view, t);
    WriteNext(entries, todo, view, t);
    if todo[t].isDirty {
      UntouchedAt(Done(entries, todo), view, t, todo[t]);
      MergeStep(cache, below, t, todo[t]);
    }
  }

  lemma UntouchedAt(done: EntryMap, view: CoinsMap, t: Txid, e: Entry)
    requires t !in done && e.isDirty && EntryOk(e, t, view)
    ensures EntryOk(e, t, Overlay(done, view))
  {
  }
}
