/** CCoinsViewCache (src/coins.cpp): write-back caches stacked over a coin database. */
module CoinsCache {
  import opened CoinsSpec
  import opened Streams

  /** CCoinsViewDB (src/txdb.cpp), the bottom of a stack. */
  class CoinsDb {
    var coins: CoinsMap
    var best: BlockHash

    ghost function View(): CoinsMap
      reads this
    {
      Unpruned(coins)
    }

    /** Coins are cleaned up whenever they are read from disk. */
    ghost predicate Valid()
      reads this
    {
      TidyMap(coins)
    }

    method GetCoins(t: Txid) returns (r: Option<Coins>)
      requires Valid()
      ensures Reads(r, View(), t) && (r.Some? ==> Tidy(r.value))
    {
      r := if t in coins then Some(coins[t]) else None;
    }

    /** Writes the dirty entries of a child cache. */
    method BatchWrite(entries: EntryMap, hash: BlockHash)
      requires Valid() && TidyBut(entries, None)
      modifies this
      ensures Valid()
      ensures Coherent(entries, old(View())) ==> View() == Overlay(entries, old(View()))
      ensures best == if hash.NullHash? then old(best) else hash
    {
      hide Coherent, Overlay, Unpruned, Put, Rest, Done, Coins.IsPruned, Tidy;
      ghost var below, coherent := View(), Coherent(entries, View());
      var todo := entries;
      RestEnds(entries);
      OverlayNothing(below);
      while todo != map[]
        invariant Rest(entries, todo) && best == old(best) && Valid()
        invariant coherent ==> View() == Overlay(Done(entries, todo), below)
        decreases |todo|
      {
        var t :| t in todo;
        RestStep(entries, todo, t);
        if coherent { WriteNext(entries, todo, below, t); }
        UnprunedPut(coins, t, todo[t].coins);
        if todo[t].isDirty {
          if todo[t].coins.IsPruned() { coins := coins - {t}; } else { coins := coins[t := todo[t].coins]; }
        }
        todo := todo - {t};
      }
      if !hash.NullHash? { best := hash; }
    }
  }

  datatype BaseView = OnDb(db: CoinsDb) | OnCache(cache: CoinsCache)

  datatype Standing = Standing(view: CoinsMap, below: CoinsMap, deeper: seq<CoinsMap>, best: BlockHash, baseBest: BlockHash, hashes: seq<BlockHash>)

  class CoinsCache {
    const base: BaseView
    var cacheCoins: EntryMap
    var hashBlock: BlockHash
    /** The entry a live CCoinsModifier points to; None when hasModifier is false. */
    var modifier: Option<Txid>
    ghost const Repr: set<object>

    /** The caches below this one form a finite stack that ends in a database. */
    ghost predicate Linked()
      decreases Repr
    {
      && this in Repr
      && match base
         case OnDb(db) => db in Repr
         case OnCache(c) => c in Repr && c.Repr <= Repr && this !in c.Repr && c.Repr < Repr && c.Linked()
    }

    /** The plain map the base view stands for. */
    ghost function Below(): CoinsMap
      requires Linked()
      reads Repr
      decreases Repr, 0
    {
      match base case OnDb(db) => db.View() case OnCache(c) => c.View()
    }

    /** The plain map this view stands for. */
    ghost function View(): CoinsMap
      requires Linked()
      reads Repr
      decreases Repr, 1
    {
      Overlay(cacheCoins, Below())
    }

    /** The plain maps that the base view stands on, all the way down. */
    ghost function Deeper(): seq<CoinsMap>
      requires Linked()
      reads Repr - {this}
      decreases Repr, 2
    {
      match base case OnDb(_) => [] case OnCache(c) => [c.Below()] + c.Deeper()
    }

    /** The block whose state this view represents: its own, or else its base's. */
    ghost function Best(): BlockHash
      requires Linked()
      reads Repr
      decreases Repr, 1
    {
      if hashBlock.NullHash? then BaseBest() else hashBlock
    }

    ghost function BaseBest(): BlockHash
      requires Linked()
      reads Repr
      decreases Repr, 0
    {
      match base case OnDb(db) => db.best case OnCache(c) => c.Best()
    }

    /** The hashes held by this cache and the views below it; the last is that of the database. */
    ghost function Hashes(): (h: seq<BlockHash>)
      requires Linked()
      reads Repr
      ensures |h| >= 2
      decreases Repr, 3
    {
      [hashBlock] + BaseHashes()
    }

    ghost function BaseHashes(): (h: seq<BlockHash>)
      requires Linked()
      reads Repr - {this}
      ensures |h| >= 1 && (|h| == 1 <==> base.OnDb?)
      decreases Repr, 2
    {
      match base case OnDb(db) => [db.best] case OnCache(c) => c.Hashes()
    }

    lemma BestIs()
      requires Linked()
      ensures Best() == FirstSet(Hashes()) && BaseBest() == FirstSet(BaseHashes())
      decreases Repr
    {
      if base.OnCache? { base.cache.BestIs(); }
      FirstSetNext(hashBlock, BaseHashes());
    }

    ghost predicate BaseValid()
      requires Linked()
      reads Repr
      decreases Repr, 0
    {
      match base
      case OnDb(db) => db.Valid()
      case OnCache(c) => c.Valid() && c.modifier.None?
    }

    ghost predicate Valid()
      reads Repr
      ensures Valid() ==> Linked()
      decreases Repr, 1
    {
      && Linked()
      && BaseValid()
      && Coherent(cacheCoins, Below()) && TidyBut(cacheCoins, modifier)
      && (modifier.Some? ==> modifier.value in cacheCoins && cacheCoins[modifier.value].isDirty)
    }

    constructor (base: BaseView)
      requires match base case OnDb(db) => db.Valid() case OnCache(c) => c.Valid() && c.modifier.None?
      ensures Valid() && this.base == base && modifier.None? && fresh(Repr - if base.OnDb? then {base.db} else base.cache.Repr)
      ensures View() == Below() && Best() == BaseBest() && cacheCoins == map[] && hashBlock.NullHash? && Hashes() == [NullHash] + BaseHashes()
    {
      this.base := base;
      cacheCoins, hashBlock, modifier := map[], NullHash, None;
      Repr := {this} + if base.OnDb? then {base.db} else base.cache.Repr;
      new;
      OverlayNothing(Below());
    }

    /** All that this view and its base stand for. */
    ghost function Stands(): Standing
      requires Linked()
      reads Repr
    {
      Standing(View(), Below(), Deeper(), Best(), BaseBest(), Hashes())
    }

    /** Asks the base view, which may fill its own cache. */
    method BaseGetCoins(t: Txid) returns (r: Option<Coins>)
      requires Linked() && BaseValid()
      modifies Repr - {this}
      ensures BaseValid() && Below() == old(Below()) && Deeper() == old(Deeper()) && BaseBest() == old(BaseBest()) && BaseHashes() == old(BaseHashes())
      ensures Reads(r, Below(), t) && (r.Some? ==> Tidy(r.value))
      decreases Repr, 0
    {
      match base {
        case OnDb(db) => r := db.GetCoins(t);
        case OnCache(c) => r := c.GetCoins(t);
      }
    }

    /** FetchCoins: the cached entry for t, filling the cache from the base view. */
    method FetchCoins(t: Txid) returns (found: bool)
      requires Valid()
      modifies Repr
      ensures Valid() && Stands() == old(Stands()) && modifier == old(modifier)
      ensures found == (t in cacheCoins) && (!found ==> t !in Below())
      decreases Repr, 1
    {
      hide Overlay, Coherent;
      if t in cacheCoins { return true; }
      var r := BaseGetCoins(t);
      if r.None? { return false; }
      FetchStep(cacheCoins, Below(), t, r.value, false);
      cacheCoins := cacheCoins[t := Entry(r.value, false, r.value.IsPruned())];
      return true;
    }

    method GetCoins(t: Txid) returns (r: Option<Coins>)
      requires Valid()
      modifies Repr
      ensures Valid() && Stands() == old(Stands()) && modifier == old(modifier)
      ensures Reads(r, View(), t) && (r.Some? && modifier != Some(t) ==> Tidy(r.value))
      decreases Repr, 2
    {
      var found := FetchCoins(t);
      r := if found then Some(cacheCoins[t].coins) else None;
    }

    /** HaveCoins: looks only whether there are outputs at all, not whether one is unspent.  That is
        the same but for an entry that is being modified. */
    method HaveCoins(t: Txid) returns (have: bool)
      requires Valid()
      modifies Repr
      ensures Valid() && Stands() == old(Stands()) && modifier == old(modifier)
      ensures modifier != Some(t) ==> (have <==> t in View())
      ensures modifier == Some(t) ==> (have <==> cacheCoins[t].coins.vout != [])
    {
      var found := FetchCoins(t);
      OverlayAt(cacheCoins, Below(), t);
      hide Overlay, Coherent;
      if found && modifier != Some(t) { TidyPruned(cacheCoins[t].coins); }
      have := found && cacheCoins[t].coins.vout != [];
    }
  
    /** ModifyCoins: hands out a modifier for the entry of t. */
    method ModifyCoins(t: Txid)
      requires Valid() && modifier.None?
      modifies Repr
      ensures Valid() && Stands() == old(Stands()) && modifier == Some(t)
    {
      hide Overlay, Coherent;
      if t in cacheCoins {
        MarkStep(cacheCoins, Below(), t);
        cacheCoins := cacheCoins[t := cacheCoins[t].(isDirty := true)];
      } else {
        var r := BaseGetCoins(t);
        match r {
          case None =>
            MissStep(cacheCoins, Below(), t);
            cacheCoins := cacheCoins[t := Entry(NO_COINS, true, true)];
          case Some(c) =>
            FetchStep(cacheCoins, Below(), t, c, true);
            cacheCoins := cacheCoins[t := Entry(c, true, c.IsPruned())];
        }
      }
      modifier := Some(t);
    }

    /** Whether ModifyNewCoins may be called: BIP 30 for a transaction that is not a coinbase,
        unless the entry's spentness is still to be flushed anyway. */
    ghost predicate MayCreate(t: Txid, coinbase: bool)
      requires Linked()
      reads Repr
    {
      coinbase || (t in cacheCoins && cacheCoins[t].isDirty) || t !in Below()
    }

    /** ModifyNewCoins: hands out a modifier for a blank entry, without looking below.
        Throws (thrown) when this cache itself shows a BIP 30 violation.  Otherwise the flags
        of the entry are truthful exactly when the call was legitimate. */
    method ModifyNewCoins(t: Txid, coinbase: bool) returns (thrown: bool)
      requires Valid() && modifier.None?
      modifies this
      ensures thrown <==> !coinbase && t in old(cacheCoins) && !old(cacheCoins)[t].coins.IsPruned()
      ensures thrown ==> Valid() && Stands() == old(Stands()) && modifier.None?
      ensures !thrown ==> modifier == Some(t) && View() == old(View()) - {t}
      ensures !thrown ==> cacheCoins == old(cacheCoins)[t := Entry(NO_COINS, true,
                if coinbase || (t in old(cacheCoins) && old(cacheCoins)[t].isDirty) then t in old(cacheCoins) && old(cacheCoins)[t].isFresh else true)]
      ensures !thrown ==> (Valid() <==> old(MayCreate(t, coinbase)))
      ensures BaseValid() && Below() == old(Below()) && Deeper() == old(Deeper()) && Best() == old(Best()) && BaseBest() == old(BaseBest()) && Hashes() == old(Hashes())
    {
      hide Overlay, Coherent;
      var e := if t in cacheCoins then cacheCoins[t] else Entry(NO_COINS, false, false);
      if !coinbase {
        if !e.coins.IsPruned() { return true; }
        if !e.isDirty { e := e.(isFresh := true); }
      }
      e := e.(coins := NO_COINS, isDirty := true);
      BlankStep(cacheCoins, Below(), t, e);
      cacheCoins := cacheCoins[t := e];
      modifier := Some(t);
      return false;
    }

    /** An assignment through the modifier. */
    method Assign(c: Coins)
      requires Valid() && modifier.Some?
      modifies this
      ensures Valid() && modifier == old(modifier) && cacheCoins[modifier.value].coins == c
      ensures View() == Put(old(View()), modifier.value, c)
      ensures Below() == old(Below()) && Deeper() == old(Deeper()) && Best() == old(Best()) && BaseBest() == old(BaseBest()) && Hashes() == old(Hashes())
    {
      hide Overlay, Coherent, Put;
      var e := cacheCoins[modifier.value].(coins := c);
      FreshStep(cacheCoins, Below(), modifier.value);
      WriteStep(cacheCoins, Below(), modifier.value, e);
      cacheCoins := cacheCoins[modifier.value := e];
    }

    /** The destructor of the modifier. */
    method Release() returns (t: Txid)
      requires Valid() && modifier.Some?
      modifies this
      ensures Valid() && modifier.None? && t == old(modifier).value
      ensures t in old(cacheCoins) && View() == Put(old(View()), t, Cleanup(old(cacheCoins)[t].coins))
      ensures Below() == old(Below()) && Deeper() == old(Deeper()) && Best() == old(Best()) && BaseBest() == old(BaseBest()) && Hashes() == old(Hashes())
    {
      hide Overlay, Coherent, Put, Cleanup;
      t := modifier.value;
      modifier := None;
      var e := cacheCoins[t].(coins := Cleanup(cacheCoins[t].coins));
      CleanupTidy(cacheCoins[t].coins);
      FreshStep(cacheCoins, Below(), t);
      WriteStep(cacheCoins, Below(), t, e);
      cacheCoins := cacheCoins[t := e];
      if e.isFresh && e.coins.IsPruned() {
        EraseStep(cacheCoins, Below(), t);
        cacheCoins := cacheCoins - {t};
      }
    }

    /** Uncache: forgets an entry that was only read. */
    method Uncache(t: Txid)
      requires Valid()
      modifies this
      ensures Valid() && Stands() == old(Stands()) && modifier == old(modifier)
    {
      hide Overlay, Coherent;
      if t in cacheCoins && !cacheCoins[t].isDirty && !cacheCoins[t].isFresh {
        EraseStep(cacheCoins, Below(), t);
        cacheCoins := cacheCoins - {t};
      }
    }
  
    method GetBestBlock() returns (h: BlockHash)
      requires Valid()
      modifies Repr
      ensures Valid() && View() == old(View()) && Below() == old(Below()) && Deeper() == old(Deeper()) && modifier == old(modifier)
      ensures Best() == old(Best()) && BaseBest() == old(BaseBest()) && Hashes() == Learnt(old(Hashes()))
      ensures h == Best()
      decreases Repr
    {
      hide Overlay, Coherent, Learnt, FirstSet;
      BestIs();
      FirstSetNext(hashBlock, BaseHashes());
      if hashBlock.NullHash? {
        match base {
          case OnDb(db) =>
            hashBlock := db.best;
            OnlyDb(db.best);
          case OnCache(c) => hashBlock := c.GetBestBlock();
        }
      }
      return hashBlock;
    }

    method SetBestBlock(h: BlockHash)
      requires Valid()
      modifies this
      ensures Valid() && View() == old(View()) && Below() == old(Below()) && Deeper() == old(Deeper()) && modifier == old(modifier)
      ensures BaseBest() == old(BaseBest()) && Best() == if h.NullHash? then BaseBest() else h
      ensures Hashes() == [h] + Lower(old(Hashes()))
    {
      hide Overlay, Coherent;
      FirstSetNext(hashBlock, BaseHashes());
      hashBlock := h;
    }

    /** Merges one entry of a child cache. */
    method MergeEntry(t: Txid, e: Entry) returns (thrown: bool)
      modifies this`cacheCoins
      ensures thrown == (e.isDirty && t in old(cacheCoins) && e.isFresh && !old(cacheCoins)[t].coins.IsPruned())
      ensures cacheCoins == if e.isDirty && !thrown then Merge(old(cacheCoins), t, e) else old(cacheCoins)
    {
      hide Coins.IsPruned;
      if e.isDirty {
        if t !in cacheCoins {
          if !(e.isFresh && e.coins.IsPruned()) {
            cacheCoins := cacheCoins[t := Entry(e.coins, true, e.isFresh)];
          }
        } else {
          var us := cacheCoins[t];
          if e.isFresh && !us.coins.IsPruned() { return true; }
          if us.isFresh && e.coins.IsPruned() {
            cacheCoins := cacheCoins - {t};
          } else {
            cacheCoins := cacheCoins[t := us.(coins := e.coins, isDirty := true)];
          }
        }
      }
      return false;
    }

    /** BatchWrite: merges the entries of a child cache.  When the child's flags are truthful
        the "FRESH flag misapplied" exception is not thrown. */
    method BatchWrite(entries: EntryMap, hash: BlockHash) returns (thrown: bool)
      requires Valid() && modifier.None? && TidyBut(entries, None)
      modifies this
      ensures Coherent(entries, old(View())) ==>
                !thrown && Valid() && View() == Overlay(entries, old(View())) && hashBlock == hash && modifier.None?
      ensures BaseValid() && Below() == old(Below()) && Deeper() == old(Deeper()) && BaseBest() == old(BaseBest()) && BaseHashes() == old(BaseHashes())
    {
      hide Overlay, Coherent, Merge, Rest, Done, Coins.IsPruned, Tidy;
      ghost var view, coherent := View(), Coherent(entries, View());
      var todo := entries;
      RestEnds(entries);
      OverlayNothing(view);
      while todo != map[]
        invariant Rest(entries, todo)
        invariant BaseValid() && Below() == old(Below()) && BaseBest() == old(BaseBest()) && BaseHashes() == old(BaseHashes()) && modifier.None?
        invariant TidyBut(cacheCoins, None)
        invariant coherent ==> Coherent(cacheCoins, Below()) && View() == Overlay(Done(entries, todo), view)
        decreases |todo|
      {
        var t :| t in todo;
        RestStep(entries, todo, t);
        if coherent { MergeNext(entries, todo, cacheCoins, Below(), view, t); }
        MergeTidy(cacheCoins, t, todo[t]);
        thrown := MergeEntry(t, todo[t]);
        if thrown { return; }
        todo := todo - {t};
      }
      hashBlock := hash;
      return false;
    }
  
    method BaseBatchWrite(entries: EntryMap, hash: BlockHash) returns (thrown: bool)
      requires Valid() && Coherent(entries, Below()) && TidyBut(entries, None)
      modifies Repr - {this}
      ensures !thrown && BaseValid() && Below() == Overlay(entries, old(Below())) && Deeper() == old(Deeper())
      ensures BaseBest() == if !hash.NullHash? then hash
                            else if base.OnDb? then old(BaseBest()) else old(base.cache.BaseBest())
      ensures [hash] + BaseHashes() == HandedDown([hash] + old(BaseHashes()))
    {
      hide Overlay, Coherent;
      match base {
        case OnDb(db) => db.BatchWrite(entries, hash); return false;
        case OnCache(c) => thrown := c.BatchWrite(entries, hash);
      }
    }

    /** Flush: pushes all modifications to the base.  This view stays the same and the base
        becomes equal to it.  The best block also survives, unless this cache never learnt
        one and the base had set one of its own. */
    method Flush() returns (thrown: bool)
      requires Valid() && modifier.None?
      modifies Repr
      ensures !thrown && Valid() && modifier.None? && cacheCoins == map[]
      ensures View() == old(View()) && Below() == old(View()) && Deeper() == old(Deeper())
      ensures hashBlock == old(hashBlock) && Hashes() == HandedDown(old(Hashes()))
      ensures BaseBest() == if !hashBlock.NullHash? then hashBlock
                            else if base.OnDb? then old(BaseBest()) else old(base.cache.BaseBest())
      ensures Best() == old(Best()) && BaseBest() == old(Best()) <==>
              !hashBlock.NullHash? || base.OnDb? || old(base.cache.BaseBest()) == old(BaseBest())
    {
      hide Overlay, Coherent;
      thrown := BaseBatchWrite(cacheCoins, hashBlock);
      cacheCoins := map[];
      OverlayNothing(Below());
      NothingCoherent(Below());
    }
  }

  /** A cache that never learnt a best block, flushed onto one that set its own: the base forgets
      it and shows that of the database. */
  method FlushForgetsBest() returns (parent: CoinsCache, child: CoinsCache, ghost shown: BlockHash)
    ensures shown == BlockHash(2) && parent.Valid() && child.Valid() && child.base == OnCache(parent)
    ensures parent.Best() == child.Best() == BlockHash(1)
  {
    hide Overlay, Coherent;
    var db := new CoinsDb;
    db.coins, db.best := map[], BlockHash(1);
    parent := new CoinsCache(OnDb(db));
    parent.SetBestBlock(BlockHash(2));
    child := new CoinsCache(OnCache(parent));
    shown := child.Best();
    var _ := child.Flush();
  }

  /** A creation, not of a coinbase, over a cache that has not read the coins the database holds: no
      exception is thrown, and the FRESH flag is a lie. */
  method CreatesOverUnread(t: Txid, c: Coins) returns (cache: CoinsCache, thrown: bool)
    requires !c.IsPruned() && Tidy(c)
    ensures !thrown && cache.Linked() && !cache.Valid() && t in cache.Below()
    ensures t in cache.cacheCoins && cache.cacheCoins[t].isFresh
  {
    hide Overlay, Coherent;
    var db := new CoinsDb;
    db.coins, db.best := map[t := c], NullHash;
    cache := new CoinsCache(OnDb(db));
    assert t in Unpruned(db.coins);
    thrown := cache.ModifyNewCoins(t, false);
  }

  lemma OnlyDb(h: BlockHash)
    ensures Learnt([h]) == [h] && FirstSet([h]) == h
  {
  }

  lemma NothingCoherent(below: CoinsMap)
    ensures Coherent(map[], below)
  {
  }
}
