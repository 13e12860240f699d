/** BlockAssembler (src/miner.cpp): selection of transactions for a block template. */
module Miner {
  import opened Counting
  import opened MinerSpec

  /** Every transaction comes once, after all its mempool parents. */
  ghost predicate ParentsFirst(p: Pool, vtx: seq<Tx>) {
    && (forall i, j | 0 <= i < j < |vtx| :: vtx[i] != vtx[j])
    && (forall i | 0 <= i < |vtx| :: vtx[i] in p.parents && forall q | q in p.parents[vtx[i]] :: q in vtx[..i])
  }

  ghost predicate BlockOk(p: Pool, vtx: seq<Tx>, inBlock: set<Tx>) {
    && ParentsFirst(p, vtx) && AncestorClosed(p, inBlock)
    && forall t :: t in inBlock <==> t in vtx
  }

  lemma Append(p: Pool, vtx: seq<Tx>, inBlock: set<Tx>, t: Tx)
    requires WellFormed(p) && BlockOk(p, vtx, inBlock) && t in p.entries && t !in inBlock && p.parents[t] <= inBlock
    ensures BlockOk(p, vtx + [t], inBlock + {t})
  {
    ClosedByParents(p, inBlock, t);
    forall i | 0 <= i < |vtx + [t]| ensures (vtx + [t])[i] in p.parents && forall q | q in p.parents[(vtx + [t])[i]] :: q in (vtx + [t])[..i] {
      if i < |vtx| { assert (vtx + [t])[..i] == vtx[..i]; } else { assert (vtx + [t])[..i] == vtx; }
    }
  }

  class BlockAssembler {
    const pool: Pool
    const totals: map<Tx, ModEntry>
    /** mapTx by descending ancestor score. */
    const order: seq<Tx>
    const nBlockMaxWeight: nat
    const nBlockMaxSize: nat
    const fIncludeWitness: bool
    const minFee: int -> int

    var fNeedSizeAccounting: bool
    var nBlockWeight: nat
    var nBlockSize: nat
    var nBlockTx: nat
    var nBlockSigOpsCost: nat
    var nFees: int
    var inBlock: set<Tx>
    var vtx: seq<Tx>
    var lastFewTxs: nat
    var blockFinished: bool

    /** The mempool is consistent, and the counters describe the block so far. */
    ghost predicate Valid()
      reads this
    {
      && WellFormed(pool) && Cached(pool, totals) && BlockOk(pool, vtx, inBlock)
      && (forall t | t in order :: t in pool.entries)
      && 4000 <= nBlockMaxWeight
      && nBlockWeight == 4000 + Total(pool, Weight, inBlock)
      && nBlockSigOpsCost == 400 + Total(pool, SigOps, inBlock)
      && nBlockTx == |vtx|
      && nBlockWeight <= nBlockMaxWeight && nBlockSigOpsCost <= MAX_BLOCK_SIGOPS_COST
    }

    constructor (pool: Pool, totals: map<Tx, ModEntry>, order: seq<Tx>, maxWeight: nat, maxSize: nat, needSize: bool,
                 includeWitness: bool, minFee: int -> int)
      requires WellFormed(pool) && Cached(pool, totals) && 4000 <= maxWeight
      requires forall t | t in order :: t in pool.entries
      ensures Valid() && vtx == [] && nBlockSize == 1000
      ensures this.pool == pool && nBlockMaxWeight == maxWeight && nBlockMaxSize == maxSize && fNeedSizeAccounting == needSize
    {
      this.pool, this.totals, this.order := pool, totals, order;
      nBlockMaxWeight, nBlockMaxSize, fIncludeWitness, this.minFee := maxWeight, maxSize, includeWitness, minFee;
      fNeedSizeAccounting := needSize;
      nBlockSize, nBlockWeight, nBlockSigOpsCost, nBlockTx, nFees := 1000, 4000, 400, 0, 0;
      inBlock, vtx, lastFewTxs, blockFinished := {}, [], 0, false;
    }

    /** With size accounting on, nBlockSize is the size of the block and within its limit. */
    ghost predicate Sized()
      reads this
    {
      fNeedSizeAccounting ==>
        nBlockSize == 1000 + Total(pool, Bytes, inBlock) && (inBlock != {} ==> nBlockSize < nBlockMaxSize)
    }

    /** Room for all of s under the limits. */
    ghost predicate Room(s: set<Tx>)
      reads this
    {
      && nBlockWeight + Total(pool, Weight, s) <= nBlockMaxWeight
      && nBlockSigOpsCost + Total(pool, SigOps, s) <= MAX_BLOCK_SIGOPS_COST
      && (fNeedSizeAccounting && s != {} ==> nBlockSize + Total(pool, Bytes, s) < nBlockMaxSize)
    }

    /** Room for t under both limits. */
    ghost predicate Fits(t: Tx)
      reads this
    {
      && nBlockWeight + Val(pool, Weight, t) <= nBlockMaxWeight
      && nBlockSigOpsCost + Val(pool, SigOps, t) <= MAX_BLOCK_SIGOPS_COST
    }

    method AddToBlock(t: Tx)
      requires Valid() && t in pool.entries && t !in inBlock && pool.parents[t] <= inBlock && Fits(t)
      modifies this
      ensures Valid() && vtx == old(vtx) + [t] && inBlock == old(inBlock) + {t}
      ensures nBlockSize == old(nBlockSize) + if fNeedSizeAccounting then Val(pool, Bytes, t) else 0
      ensures fNeedSizeAccounting == old(fNeedSizeAccounting) && lastFewTxs == old(lastFewTxs) && blockFinished == old(blockFinished)
      ensures nBlockWeight == old(nBlockWeight) + Val(pool, Weight, t) && nBlockSigOpsCost == old(nBlockSigOpsCost) + Val(pool, SigOps, t)
      ensures nFees == old(nFees) + pool.entries[t].fee
    {
      hide Total, WellFormed, Cached, BlockOk, VirtualSize;
      Append(pool, vtx, inBlock, t);
      TotalAdd(pool, Weight, inBlock, t);
      TotalAdd(pool, SigOps, inBlock, t);
      vtx := vtx + [t];
      if fNeedSizeAccounting { nBlockSize := nBlockSize + pool.entries[t].serializedSize; }
      nBlockWeight := nBlockWeight + pool.entries[t].weight;
      nBlockTx := nBlockTx + 1;
      nBlockSigOpsCost := nBlockSigOpsCost + pool.entries[t].sigops;
      nFees := nFees + pool.entries[t].fee;
      inBlock := inBlock + {t};
    }

    method IsStillDependent(t: Tx) returns (b: bool)
      requires t in pool.parents
      ensures b <==> !(pool.parents[t] <= inBlock)
    {
      var todo := pool.parents[t];
      while todo != {}
        invariant todo <= pool.parents[t] && pool.parents[t] - todo <= inBlock
      {
        var q :| q in todo;
        if q !in inBlock { return true; }
        todo := todo - {q};
      }
      return false;
    }

    method TestPackage(packageSize: int, packageSigOpsCost: int) returns (ok: bool)
      ensures ok <==> nBlockWeight + WITNESS_SCALE_FACTOR * packageSize < nBlockMaxWeight
                      && nBlockSigOpsCost + packageSigOpsCost < MAX_BLOCK_SIGOPS_COST
    {
      if nBlockWeight + WITNESS_SCALE_FACTOR * packageSize >= nBlockMaxWeight { return false; }
      if nBlockSigOpsCost + packageSigOpsCost >= MAX_BLOCK_SIGOPS_COST { return false; }
      return true;
    }

    /** Locktime, premature witness and serialized size of a package, in any order. */
    method TestPackageTransactions(package: set<Tx>) returns (ok: bool)
      requires package <= pool.entries.Keys
      ensures ok <==> (forall t | t in package :: pool.entries[t].isFinal && (fIncludeWitness || !pool.entries[t].hasWitness))
                      && (fNeedSizeAccounting && package != {} ==> nBlockSize + Total(pool, Bytes, package) < nBlockMaxSize)
    {
      hide Total;
      var size, todo := nBlockSize, package;
      ghost var seen := {};
      TotalNone(pool, Bytes);
      while todo != {}
        invariant todo <= package && seen == package - todo
        invariant forall t | t in seen :: pool.entries[t].isFinal && (fIncludeWitness || !pool.entries[t].hasWitness)
        invariant fNeedSizeAccounting ==> size == nBlockSize + Total(pool, Bytes, seen)
        invariant fNeedSizeAccounting && seen != {} ==> size < nBlockMaxSize
      {
        var t :| t in todo;
        if !pool.entries[t].isFinal { return false; }
        if !fIncludeWitness && pool.entries[t].hasWitness { return false; }
        TotalAdd(pool, Bytes, seen, t);
        TotalMono(pool, Bytes, seen + {t}, package);
        if fNeedSizeAccounting {
          if size + pool.entries[t].serializedSize >= nBlockMaxSize { return false; }
          size := size + pool.entries[t].serializedSize;
        }
        todo, seen := todo - {t}, seen + {t};
      }
      assert seen == package;
      return true;
    }
  
    /** The transaction of todo with the fewest ancestors. */
    method FewestAncestors(todo: set<Tx>) returns (best: Tx)
      requires todo != {} && todo <= pool.anc.Keys
      ensures best in todo && forall t | t in todo :: |pool.anc[best]| <= |pool.anc[t]|
    {
      best :| best in todo;
      var rest := todo - {best};
      while rest != {}
        invariant best in todo && rest <= todo
        invariant forall t | t in todo - rest :: |pool.anc[best]| <= |pool.anc[t]|
      {
        var t :| t in rest;
        if |pool.anc[t]| < |pool.anc[best]| { best := t; }
        rest := rest - {t};
      }
    }

    /** std::sort by CompareTxIterByAncestorCount. */
    method SortForBlock(package: set<Tx>) returns (sorted: seq<Tx>)
      requires package <= pool.anc.Keys
      ensures ByAncestors(pool, package, sorted)
    {
      sorted := [];
      var todo := package;
      while todo != {}
        invariant todo <= package && ByAncestors(pool, package - todo, sorted)
        invariant forall t, u | t in sorted && u in todo :: t in pool.anc && |pool.anc[t]| <= |pool.anc[u]|
      {
        var best := FewestAncestors(todo);
        assert package - (todo - {best}) == package - todo + {best};
        sorted, todo := sorted + [best], todo - {best};
      }
      assert package - todo == package;
    }

    lemma Holds()
      requires Valid()
      ensures WellFormed(pool) && AncestorClosed(pool, inBlock)
    {
      IsClosed(pool, vtx, inBlock);
    }

    /** Adds a sorted package and erases it from the modified set. */
    method AddPackage(t: Tx, sorted: seq<Tx>, mods: map<Tx, ModEntry>) returns (mods': map<Tx, ModEntry>)
      requires Valid() && Sized() && t in pool.anc && t !in inBlock && ByAncestors(pool, Package(pool, t, inBlock), sorted)
      requires Room(Package(pool, t, inBlock))
      modifies this
      ensures Valid() && Sized() && inBlock == old(inBlock) + Package(pool, t, old(inBlock)) && vtx == old(vtx) + sorted
      ensures mods' == mods - Package(pool, t, old(inBlock))
      ensures fNeedSizeAccounting == old(fNeedSizeAccounting)
    {
      hide WellFormed, ByAncestors, Package, Elements, AncestorClosed, Added, BlockAssembler.Valid, BlockAssembler.Sized, BlockAssembler.Room;
      ghost var before, was, package := inBlock, vtx, Package(pool, t, inBlock);
      Holds();
      mods' := mods;
      NoneAdded(before, was, mods, sorted);
      SortedDone(pool, package, sorted, 0);
      for i := 0 to |sorted|
        invariant Valid() && Sized() && fNeedSizeAccounting == old(fNeedSizeAccounting)
        invariant Added(before, was, mods, sorted, i, inBlock, vtx, mods') && Room(package - Elements(sorted[..i]))
      {
        NextOfPackage(pool, t, before, was, mods, sorted, i, inBlock, vtx, mods');
        AddOfPackage(sorted[i], package - Elements(sorted[..i]));
        mods' := mods' - {sorted[i]};
      }
      SortedDone(pool, package, sorted, |sorted|);
      AllAdded(before, was, mods, sorted, inBlock, vtx, mods');
    }

    /** Adds one transaction of a package there is room for. */
    method AddOfPackage(u: Tx, ghost rest: set<Tx>)
      requires Valid() && Sized() && u in pool.entries && u in rest && u !in inBlock && pool.parents[u] <= inBlock && Room(rest)
      modifies this
      ensures Valid() && Sized() && Room(rest - {u}) && fNeedSizeAccounting == old(fNeedSizeAccounting)
      ensures vtx == old(vtx) + [u] && inBlock == old(inBlock) + {u}
    {
      hide Total, Val, WellFormed, Cached, BlockOk;
      TotalRemove(pool, Weight, rest, u);
      TotalRemove(pool, SigOps, rest, u);
      TotalRemove(pool, Bytes, rest, u);
      TotalAdd(pool, Bytes, inBlock, u);
      AddToBlock(u);
    }
  
    /** Accounts for the inclusion of a in the packages of its descendants outside added. */
    method UpdateForOne(a: Tx, added: set<Tx>, mods: map<Tx, ModEntry>) returns (mods': map<Tx, ModEntry>)
      requires totals.Keys == pool.entries.Keys == pool.anc.Keys && a in pool.entries && a in added
      ensures Accounts(pool, totals, mods, mods', a, added)
    {
      mods' := mods;
      var todo := Descendants(pool, a) + {a};
      ghost var seen: set<Tx> := {};
      hide Val;
      while todo != {}
        invariant todo <= Descendants(pool, a) + {a} && seen == Descendants(pool, a) + {a} - todo - added
        invariant seen <= totals.Keys && AccountsFor(pool, totals, mods, mods', a, seen)
      {
        var d :| d in todo;
        if d !in added {
          var e := if d in mods' then mods'[d].(modFees := mods'[d].modFees - pool.entries[a].fee)
                   else totals[d].(modFees := totals[d].modFees - pool.entries[a].modFee);
          mods' := mods'[d := e.(size := e.size - Val(pool, Size, a), sigops := e.sigops - Val(pool, SigOps, a))];
          seen := seen + {d};
        }
        todo := todo - {d};
      }
      assert seen == Descendants(pool, a) - added;
    }

    /** UpdatePackagesForAdded: the modified set accounts for the newly included transactions. */
    method UpdatePackagesForAdded(added: set<Tx>, mods: map<Tx, ModEntry>, ghost failed: set<Tx>) returns (mods': map<Tx, ModEntry>)
      requires Valid() && added <= inBlock && AncestorClosed(pool, inBlock - added)
      requires Tracked(pool, mods, failed, inBlock - added, inBlock)
      ensures Tracked(pool, mods', failed, inBlock, inBlock)
    {
      hide Total, Val, Tracked, Accounts, AccountsFor;
      ghost var old_ := inBlock - added;
      mods' := mods;
      var todo := added;
      assert old_ + (added - todo) == old_;
      KeysAgree(pool, totals);
      IsClosed(pool, vtx, inBlock);
      hide WellFormed, Cached, BlockOk;
      while todo != {}
        invariant todo <= added && Tracked(pool, mods', failed, old_ + (added - todo), inBlock)
      {
        var a :| a in todo;
        NoneBelow(pool, inBlock, added, a);
        ghost var before := mods';
        mods' := UpdateForOne(a, added, mods');
        AccountStep(pool, totals, before, mods', failed, old_ + (added - todo), inBlock, a, added);
        assert old_ + (added - todo) + {a} == old_ + (added - (todo - {a}));
        todo := todo - {a};
      }
      assert old_ + (added - todo) == inBlock;
    }
  
    /** Whether the next mapTx entry is stale or done with. */
    method SkipMapTxEntry(t: Tx, mods: map<Tx, ModEntry>, failed: set<Tx>) returns (b: bool)
      ensures b <==> t in mods || t in inBlock || t in failed
    {
      if t in mods || t in inBlock || t in failed { return true; }
      return false;
    }

    /** A package that passed both tests goes into the block whole. */
    method IncludePackage(t: Tx, e: ModEntry, mods: map<Tx, ModEntry>, ghost failed: set<Tx>)
      returns (included: bool, mods': map<Tx, ModEntry>)
      requires Valid() && Sized() && t in pool.anc && t !in inBlock
      requires Covers(pool, e, t, inBlock)
      requires nBlockWeight + WITNESS_SCALE_FACTOR * e.size < nBlockMaxWeight && nBlockSigOpsCost + e.sigops < MAX_BLOCK_SIGOPS_COST
      requires Tracked(pool, mods, failed, inBlock, inBlock)
      modifies this
      ensures Valid() && Sized() && Tracked(pool, mods', failed, inBlock, inBlock)
      ensures fNeedSizeAccounting == old(fNeedSizeAccounting)
      ensures included ==> t in inBlock && inBlock == old(inBlock) + Package(pool, t, old(inBlock)) && old(vtx) <= vtx
      ensures !included ==> unchanged(this) && mods' == mods
    {
      hide Total, Val, Tracked, WellFormed, Cached, BlockOk, ByAncestors;
      var package := pool.anc[t] - inBlock + {t};
      PackageKnown(pool, t, inBlock);
      var ok := TestPackageTransactions(package);
      if !ok { return false, mods; }
      WeightBySize(pool, package);
      var sorted := SortForBlock(package);
      ghost var before := inBlock;
      IsClosed(pool, vtx, inBlock);
      mods' := AddPackage(t, sorted, mods);
      assert inBlock - package == before;
      WithoutPackage(pool, mods, failed, before, package);
      mods' := UpdatePackagesForAdded(package, mods', failed);
      return true, mods';
    }
  
    /** addPackageTxs: whatever the scores make it prefer, it terminates, stays within the
        limits and emits parents first, and no package it looks at is underestimated. */
    method AddPackageTxs() returns (nPackagesSelected: nat)
      requires Valid() && Sized()
      modifies this
      ensures Valid() && Sized() && old(vtx) <= vtx && fNeedSizeAccounting == old(fNeedSizeAccounting)
    {
      hide Tracked, Covers, Exact, Package, BlockAssembler.Valid, BlockAssembler.Sized;
      nPackagesSelected := 0;
      var mods: map<Tx, ModEntry> := map[];
      var failed: set<Tx> := {};
      NothingTracked(pool, inBlock);
      assert inBlock - inBlock == {};
      mods := UpdatePackagesForAdded(inBlock, mods, failed);
      var mi, nConsecutiveFailed := 0, 0;
      while mi < |order| || mods != map[]
        invariant mi <= |order| && Valid() && Sized() && old(vtx) <= vtx && fNeedSizeAccounting == old(fNeedSizeAccounting)
        invariant Tracked(pool, mods, failed, inBlock, inBlock)
        decreases |pool.entries.Keys - inBlock|, |order| - mi + |mods|
      {
        if mi < |order| {
          var skip := SkipMapTxEntry(order[mi], mods, failed);
          if skip {
            mi := mi + 1;
            continue;
          }
        }
        var t, e, fUsingModified := Choose(mi, mods, failed);
        if !fUsingModified { mi := mi + 1; }
        if e.modFees < minFee(e.size) { return; }
        var ok := TestPackage(e.size, e.sigops);
        if !ok {
          if fUsingModified { mods, failed := Fail(t, mods, failed); }
          nConsecutiveFailed := nConsecutiveFailed + 1;
          if nConsecutiveFailed > 1000 && nBlockWeight > nBlockMaxWeight - 4000 { break; }
          continue;
        }
        ghost var before := inBlock;
        var included, mods' := IncludePackage(t, e, mods, failed);
        if !included {
          if fUsingModified { mods, failed := Fail(t, mods, failed); }
          continue;
        }
        Shrinks(pool.entries.Keys, before, inBlock, t);
        mods, nConsecutiveFailed, nPackagesSelected := mods', 0, nPackagesSelected + 1;
      }
    }

    /** The transaction to evaluate: the next of mapTx, or the best modified one, as the
        score comparison says. */
    method Choose(mi: nat, mods: map<Tx, ModEntry>, ghost failed: set<Tx>) returns (t: Tx, e: ModEntry, fUsingModified: bool)
      requires Valid() && Tracked(pool, mods, failed, inBlock, inBlock)
      requires mi < |order| ==> order[mi] !in inBlock
      requires mi < |order| || mods != map[]
      ensures t in pool.anc && t in pool.entries && t !in inBlock && Covers(pool, e, t, inBlock)
      ensures t !in failed && (t in mods ==> fUsingModified) ==> Exact(pool, e, t, inBlock)
      ensures if fUsingModified then t in mods && e == mods[t] else mi < |order| && t == order[mi]
    {
      hide Total, Val, Tracked, WellFormed, Cached, BlockOk, Covers, Exact;
      var preferModified := *;
      if mi >= |order| || (mods != map[] && preferModified) {
        t :| t in mods;
        fUsingModified := true;
      } else {
        t, fUsingModified := order[mi], false;
      }
      Considered(pool, totals, mods, failed, inBlock, t);
      e := if fUsingModified then mods[t] else totals[t];
    }

    /** Gives up on a modified entry. */
    method Fail(t: Tx, mods: map<Tx, ModEntry>, failed: set<Tx>) returns (mods': map<Tx, ModEntry>, failed': set<Tx>)
      requires t in mods && Tracked(pool, mods, failed, inBlock, inBlock)
      ensures Tracked(pool, mods', failed', inBlock, inBlock) && |mods'| < |mods| && mods' == mods - {t}
    {
      hide Covers, Exact;
      mods', failed' := mods - {t}, failed + {t};
      assert mods'.Keys == mods.Keys - {t};
      assert |mods'| == |mods.Keys - {t}|;
    }
  
    /** Whether t still fits, and whether it is worth looking further. */
    method TestForBlock(t: Tx) returns (ok: bool)
      requires t in pool.entries
      modifies this`lastFewTxs, this`blockFinished
      ensures ok <==> nBlockWeight + Val(pool, Weight, t) < nBlockMaxWeight
                      && (fNeedSizeAccounting ==> nBlockSize + Val(pool, Bytes, t) < nBlockMaxSize)
                      && nBlockSigOpsCost + Val(pool, SigOps, t) < MAX_BLOCK_SIGOPS_COST && pool.entries[t].isFinal
      ensures ok ==> blockFinished == old(blockFinished)
    {
      hide VirtualSize;
      if nBlockWeight + pool.entries[t].weight >= nBlockMaxWeight {
        if nBlockWeight > nBlockMaxWeight - 400 || lastFewTxs > 50 {
          blockFinished := true;
          return false;
        }
        if nBlockWeight > nBlockMaxWeight - 4000 { lastFewTxs := lastFewTxs + 1; }
        return false;
      }
      if fNeedSizeAccounting {
        if nBlockSize + pool.entries[t].serializedSize >= nBlockMaxSize {
          if nBlockSize > nBlockMaxSize - 100 || lastFewTxs > 50 {
            blockFinished := true;
            return false;
          }
          if nBlockSize > nBlockMaxSize - 1000 { lastFewTxs := lastFewTxs + 1; }
          return false;
        }
      }
      if nBlockSigOpsCost + pool.entries[t].sigops >= MAX_BLOCK_SIGOPS_COST {
        if nBlockSigOpsCost > MAX_BLOCK_SIGOPS_COST - 8 { blockFinished := true; }
        return false;
      }
      if !pool.entries[t].isFinal { return false; }
      return true;
    }

    /** The children of t that were waiting for it go back to the queue. */
    method Requeue(t: Tx, queue: set<Tx>, waiting: set<Tx>) returns (queue': set<Tx>, waiting': set<Tx>)
      requires queue !! waiting
      ensures queue' !! waiting' && queue' + waiting' == queue + waiting && queue <= queue'
      ensures forall c | c in waiting :: c in queue' <==> c in pool.parents && t in pool.parents[c]
    {
      var children := set c | c in pool.parents && t in pool.parents[c];
      queue', waiting' := queue, waiting;
      var todo := children;
      while todo != {}
        invariant todo <= children && queue' !! waiting' && queue' + waiting' == queue + waiting && queue <= queue'
        invariant forall c | c in waiting :: c in queue' <==> c in children - todo
      {
        var c :| c in todo;
        if c in waiting' { queue', waiting' := queue' + {c}, waiting' - {c}; }
        todo := todo - {c};
      }
    }

    /** Adds t if it fits. */
    method TryToAdd(t: Tx) returns (added: bool)
      requires Valid() && Sized() && fNeedSizeAccounting && t in pool.entries && t !in inBlock && pool.parents[t] <= inBlock
      modifies this
      ensures Valid() && Sized() && fNeedSizeAccounting
      ensures inBlock == if added then old(inBlock) + {t} else old(inBlock)
    {
      hide Total, Val, WellFormed, Cached, BlockOk;
      added := TestForBlock(t);
      if added {
        TotalAdd(pool, Bytes, inBlock, t);
        AddToBlock(t);
      }
    }

    /** Draws one transaction: it is skipped, set aside until its parents are in, tried and given up,
        or added, and then those that waited for it are drawn again. */
    method DrawOne(nBlockPrioritySize: nat, queue: set<Tx>, waiting: set<Tx>) returns (stop: bool, queue': set<Tx>, waiting': set<Tx>)
      requires Valid() && Sized() && fNeedSizeAccounting && queue != {} && Drawing(pool.entries.Keys, queue, waiting, inBlock)
      modifies this
      ensures Valid() && Sized() && fNeedSizeAccounting && Drawing(pool.entries.Keys, queue', waiting', inBlock)
      ensures |pool.entries.Keys - inBlock| < old(|pool.entries.Keys - inBlock|) || (inBlock == old(inBlock) && |queue'| < |queue|)
    {
      assert WellFormed(pool);
      hide Total, WellFormed, Cached, BlockOk, Drawing, BlockAssembler.Sized, BlockAssembler.Valid;
      var t, allowFree :| t in queue;
      Drawn(pool.entries.Keys, queue, waiting, inBlock, t);
      stop, queue', waiting' := false, queue - {t}, waiting;
      if !fIncludeWitness && pool.entries[t].hasWitness { return; }
      ParentsKnown(pool, t);
      var dependent := IsStillDependent(t);
      if dependent { return false, queue', waiting + {t}; }
      var ok := TryToAdd(t);
      if ok {
        Shrinks(pool.entries.Keys, old(inBlock), inBlock, t);
        stop := nBlockSize >= nBlockPrioritySize || !allowFree;
        if !stop {
          DrawingApart(pool.entries.Keys, queue', waiting, inBlock);
          queue', waiting' := Requeue(t, queue', waiting);
          Redistributed(pool.entries.Keys, queue - {t}, waiting, queue', waiting', inBlock);
        }
      }
    }

    /** addPriorityTxs: fills part of the block by priority.  Whatever the priorities are, no
        transaction is ever drawn twice, and the limits and the order of dependencies hold. */
    method AddPriorityTxs(prioritySize: nat)
      requires Valid() && Sized() && vtx == [] && nBlockSize == 1000
      modifies this
      ensures Valid() && Sized() && fNeedSizeAccounting == old(fNeedSizeAccounting)
    {
      hide Total, WellFormed, Cached, BlockOk;
      var nBlockPrioritySize := if nBlockMaxSize < prioritySize then nBlockMaxSize else prioritySize;
      if nBlockPrioritySize == 0 { return; }
      var fSizeAccounting := fNeedSizeAccounting;
      NothingYet(pool, vtx, inBlock);
      fNeedSizeAccounting := true;
      assert WellFormed(pool) && Sized();
      hide BlockAssembler.Sized, BlockAssembler.Valid;
      assert Valid();
      var queue, waiting: set<Tx> := pool.entries.Keys, {};
      while queue != {} && !blockFinished
        invariant Valid() && Sized() && fNeedSizeAccounting
        invariant Drawing(pool.entries.Keys, queue, waiting, inBlock)
        decreases |pool.entries.Keys - inBlock|, |queue|
      {
        var stop;
        stop, queue, waiting := DrawOne(nBlockPrioritySize, queue, waiting);
        if stop { break; }
      }
      fNeedSizeAccounting := fSizeAccounting;
    }

    /** The selection part of CreateNewBlock. */
    method SelectTransactions(prioritySize: nat)
      requires Valid() && Sized() && vtx == [] && nBlockSize == 1000
      modifies this
      ensures Valid() && Sized()
      ensures ParentsFirst(pool, vtx) && AncestorClosed(pool, inBlock)
      ensures nBlockWeight <= nBlockMaxWeight && nBlockSigOpsCost <= MAX_BLOCK_SIGOPS_COST
    {
      AddPriorityTxs(prioritySize);
      var _ := AddPackageTxs();
    }
  }

  /** Transactions still to be drawn, those set aside, and those in the block. */
  ghost predicate Drawing(all: set<Tx>, queue: set<Tx>, waiting: set<Tx>, block: set<Tx>) {
    queue <= all && waiting <= all && queue !! waiting && queue !! block && waiting !! block
  }

  lemma DrawingApart(all: set<Tx>, queue: set<Tx>, waiting: set<Tx>, block: set<Tx>)
    requires Drawing(all, queue, waiting, block)
    ensures queue !! waiting
  {
  }

  lemma Drawn(all: set<Tx>, queue: set<Tx>, waiting: set<Tx>, block: set<Tx>, t: Tx)
    requires Drawing(all, queue, waiting, block) && t in queue
    ensures t in all && t !in block && |queue - {t}| < |queue|
    ensures Drawing(all, queue - {t}, waiting, block) && Drawing(all, queue - {t}, waiting + {t}, block) && Drawing(all, queue - {t}, waiting, block + {t})
  {
  }

  lemma Redistributed(all: set<Tx>, queue: set<Tx>, waiting: set<Tx>, queue': set<Tx>, waiting': set<Tx>, block: set<Tx>)
    requires Drawing(all, queue, waiting, block) && queue' !! waiting' && queue' + waiting' == queue + waiting
    ensures Drawing(all, queue', waiting', block)
  {
    assert forall t | t in queue' + waiting' :: t in queue + waiting;
  }

  lemma NothingYet(p: Pool, vtx: seq<Tx>, inBlock: set<Tx>)
    requires BlockOk(p, vtx, inBlock) && vtx == []
    ensures inBlock == {} && Total(p, Bytes, inBlock) == 0
  {
  }

  lemma ParentsKnown(p: Pool, t: Tx)
    requires WellFormed(p) && t in p.entries
    ensures t in p.parents && t in p.anc
  {
  }

  lemma NothingTracked(p: Pool, block: set<Tx>)
    ensures Tracked(p, map[], {}, {}, block)
  {
  }

  /** The totals used for a package that is considered do not underestimate it. */
  lemma Considered(p: Pool, totals: map<Tx, ModEntry>, mods: map<Tx, ModEntry>, failed: set<Tx>, s: set<Tx>, t: Tx)
    requires WellFormed(p) && Cached(p, totals) && Tracked(p, mods, failed, s, s)
    requires t in mods || (t in p.entries && t !in s)
    ensures t in p.anc && t in p.entries && t in totals && t !in s
    ensures t in mods ==> Covers(p, mods[t], t, s)
    ensures Covers(p, totals[t], t, s)
    ensures t !in failed ==> Exact(p, if t in mods then mods[t] else totals[t], t, s)
  {
    KeysAgree(p, totals);
    hide Total;
    assert t in totals;
    FullCovers(p, totals, t, s);
  }

  lemma Shrinks(all: set<Tx>, before: set<Tx>, after: set<Tx>, t: Tx)
    requires before <= after && t in after && t !in before && t in all
    ensures |all - after| < |all - before|
  {
    SubsetSize(all - after, all - before - {t});
  }

  lemma PackageKnown(p: Pool, t: Tx, block: set<Tx>)
    requires WellFormed(p) && t in p.anc
    ensures Package(p, t, block) <= p.entries.Keys == p.anc.Keys
  {
  }

  lemma WithoutPackage(p: Pool, mods: map<Tx, ModEntry>, failed: set<Tx>, s: set<Tx>, package: set<Tx>)
    requires Tracked(p, mods, failed, s, s)
    ensures Tracked(p, mods - package, failed, s, s + package)
  {
  }

  lemma KeysAgree(p: Pool, totals: map<Tx, ModEntry>)
    requires WellFormed(p) && Cached(p, totals)
    ensures totals.Keys == p.entries.Keys == p.anc.Keys
  {
  }

  /** A descendant in the block of a newly added transaction is newly added too. */
  lemma NoneBelow(p: Pool, block: set<Tx>, added: set<Tx>, a: Tx)
    requires AncestorClosed(p, block - added) && a in added
    ensures Descendants(p, a) * block <= added
  {
  }

  /** The first i transactions of a sorted package have been added to the block and taken out of the modified set. */
  ghost predicate Added(before: set<Tx>, was: seq<Tx>, mods: map<Tx, ModEntry>, sorted: seq<Tx>, i: nat,
                        block: set<Tx>, vtx: seq<Tx>, mods': map<Tx, ModEntry>) {
    i <= |sorted| && block == before + Elements(sorted[..i]) && vtx == was + sorted[..i] && mods' == mods - Elements(sorted[..i])
  }

  lemma NoneAdded(before: set<Tx>, was: seq<Tx>, mods: map<Tx, ModEntry>, sorted: seq<Tx>)
    ensures Added(before, was, mods, sorted, 0, before, was, mods)
  {
    assert Elements(sorted[..0]) == {};
  }

  lemma AllAdded(before: set<Tx>, was: seq<Tx>, mods: map<Tx, ModEntry>, sorted: seq<Tx>, block: set<Tx>, vtx: seq<Tx>, mods': map<Tx, ModEntry>)
    requires Added(before, was, mods, sorted, |sorted|, block, vtx, mods')
    ensures block == before + Elements(sorted) && vtx == was + sorted && mods' == mods - Elements(sorted)
  {
    assert sorted[..|sorted|] == sorted;
  }

  lemma NextOfPackage(p: Pool, t: Tx, before: set<Tx>, was: seq<Tx>, mods: map<Tx, ModEntry>, sorted: seq<Tx>, i: nat,
                      block: set<Tx>, vtx: seq<Tx>, mods': map<Tx, ModEntry>)
    requires WellFormed(p) && AncestorClosed(p, before) && t in p.anc && t !in before && ByAncestors(p, Package(p, t, before), sorted)
    requires i < |sorted| && Added(before, was, mods, sorted, i, block, vtx, mods')
    ensures var u, rest := sorted[i], Package(p, t, before) - Elements(sorted[..i]);
            && u in p.entries && u in rest && u !in block && p.parents[u] <= block
            && rest - {u} == Package(p, t, before) - Elements(sorted[..i + 1])
            && Added(before, was, mods, sorted, i + 1, block + {u}, vtx + [u], mods' - {u})
  {
    hide WellFormed, ByAncestors, Package, Elements, AncestorClosed;
    SortedNext(p, t, before, sorted, i);
    assert sorted[..i + 1] == sorted[..i] + [sorted[i]];
    assert vtx + [sorted[i]] == was + (sorted[..i] + [sorted[i]]);
  }

  lemma IsClosed(p: Pool, vtx: seq<Tx>, inBlock: set<Tx>)
    requires BlockOk(p, vtx, inBlock)
    ensures AncestorClosed(p, inBlock)
  {
  }

  ghost function Elements(s: seq<Tx>): set<Tx> { set t | t in s }

  /** sorted lists s without repetition, by number of ancestors. */
  ghost predicate ByAncestors(p: Pool, s: set<Tx>, sorted: seq<Tx>) {
    && Elements(sorted) == s && s <= p.anc.Keys
    && (forall i, j | 0 <= i < j < |sorted| :: sorted[i] != sorted[j])
    && (forall i, j | 0 <= i < j < |sorted| :: sorted[i] in p.anc && sorted[j] in p.anc && |p.anc[sorted[i]]| <= |p.anc[sorted[j]]|)
  }

  lemma SortedDone(p: Pool, s: set<Tx>, sorted: seq<Tx>, i: nat)
    requires ByAncestors(p, s, sorted) && i <= |sorted|
    ensures Elements(sorted[..i]) <= s && Elements(sorted) == s && s - Elements(sorted[..0]) == s
  {
    assert Elements(sorted[..0]) == {};
  }

  /** In a sorted package every transaction comes after its parents. */
  lemma SortedNext(p: Pool, t: Tx, block: set<Tx>, sorted: seq<Tx>, i: nat)
    requires WellFormed(p) && AncestorClosed(p, block) && t in p.anc && t !in block && ByAncestors(p, Package(p, t, block), sorted) && i < |sorted|
    ensures sorted[i] in p.entries && sorted[i] !in block && sorted[i] !in Elements(sorted[..i]) && sorted[i] in Package(p, t, block)
    ensures p.parents[sorted[i]] <= block + Elements(sorted[..i])
    ensures Elements(sorted[..i + 1]) == Elements(sorted[..i]) + {sorted[i]}
  {
    var u := sorted[i];
    assert u in Elements(sorted);
    forall q | q in p.parents[u] ensures q in block + Elements(sorted[..i]) {
      if q !in block {
        AncestorsCount(p, u, q);
        assert q in Package(p, t, block);
        assert q in Elements(sorted);
        var j :| 0 <= j < |sorted| && sorted[j] == q;
        assert j < i;
      }
    }
  }

  lemma TotalNone(p: Pool, k: Measure)
    ensures Total(p, k, {}) == 0
  {
  }
}
