/** The mempool that a block is assembled from, as a finite acyclic dependency graph, and the
    package totals that the assembler tracks (src/miner.cpp, src/miner.h). */
module MinerSpec {
  import opened Counting

  const WITNESS_SCALE_FACTOR: nat := 4
  const MAX_BLOCK_SIGOPS_COST: nat := 80000

  datatype Tx = Tx(n: nat)

  datatype Entry = Entry(weight: nat, sigops: nat, serializedSize: nat, fee: int, modFee: int, isFinal: bool, hasWitness: bool)

  /** anc gives the in-mempool ancestors of each transaction, itself excluded. */
  datatype Pool = Pool(entries: map<Tx, Entry>, parents: map<Tx, set<Tx>>, anc: map<Tx, set<Tx>>, bytesPerSigOp: nat)

  /** The quantities summed over packages and over the block. */
  datatype Measure = Size | SigOps | Weight | Bytes

  /** GetVirtualTransactionSize. */
  function VirtualSize(weight: nat, sigops: nat, bytesPerSigOp: nat): nat {
    var w := if weight < sigops * bytesPerSigOp then sigops * bytesPerSigOp else weight;
    (w + WITNESS_SCALE_FACTOR - 1) / WITNESS_SCALE_FACTOR
  }

  function Val(p: Pool, k: Measure, t: Tx): nat {
    if t !in p.entries then 0
    else
      var e := p.entries[t];
      match k
      case Size => VirtualSize(e.weight, e.sigops, p.bytesPerSigOp)
      case SigOps => e.sigops
      case Weight => e.weight
      case Bytes => e.serializedSize
  }

  ghost function Total(p: Pool, k: Measure, s: set<Tx>): nat {
    if s == {} then 0 else var t :| t in s; Val(p, k, t) + Total(p, k, s - {t})
  }

  lemma {:induction false} TotalRemove(p: Pool, k: Measure, s: set<Tx>, x: Tx)
    requires x in s
    ensures Total(p, k, s) == Val(p, k, x) + Total(p, k, s - {x})
    decreases s
  {
    hide Val;
    var t :| t in s && Total(p, k, s) == Val(p, k, t) + Total(p, k, s - {t});
    if t != x {
      TotalRemove(p, k, s - {t}, x);
      TotalRemove(p, k, s - {x}, t);
      assert s - {t} - {x} == s - {x} - {t};
    }
  }

  lemma {:induction false} TotalSplit(p: Pool, k: Measure, s: set<Tx>, r: set<Tx>)
    requires r <= s
    ensures Total(p, k, s) == Total(p, k, r) + Total(p, k, s - r)
    decreases r
  {
    hide Val;
    if r == {} {
      assert s - r == s;
    } else {
      var x :| x in r;
      TotalRemove(p, k, s, x);
      TotalRemove(p, k, r, x);
      TotalSplit(p, k, s - {x}, r - {x});
      assert s - {x} - (r - {x}) == s - r;
    }
  }

  lemma TotalAdd(p: Pool, k: Measure, s: set<Tx>, x: Tx)
    requires x !in s
    ensures Total(p, k, s + {x}) == Total(p, k, s) + Val(p, k, x)
  {
    TotalRemove(p, k, s + {x}, x);
    assert s + {x} - {x} == s;
  }

  lemma TotalMono(p: Pool, k: Measure, r: set<Tx>, s: set<Tx>)
    requires r <= s
    ensures Total(p, k, r) <= Total(p, k, s)
  {
    TotalSplit(p, k, s, r);
  }

  /** The weight of a package is at most four times its virtual size. */
  lemma {:induction false} WeightBySize(p: Pool, s: set<Tx>)
    ensures Total(p, Weight, s) <= WITNESS_SCALE_FACTOR * Total(p, Size, s)
    decreases s
  {
    if s != {} {
      var x :| x in s;
      TotalRemove(p, Weight, s, x);
      TotalRemove(p, Size, s, x);
      WeightBySize(p, s - {x});
      assert Val(p, Weight, x) <= WITNESS_SCALE_FACTOR * Val(p, Size, x);
    }
  }

  // ------------------------------------------------------------- dependencies

  ghost predicate WellFormed(p: Pool) {
    && p.parents.Keys == p.entries.Keys && p.anc.Keys == p.entries.Keys
    && (forall t | t in p.anc :: p.parents[t] <= p.anc[t] && p.anc[t] <= p.entries.Keys && t !in p.anc[t])
    && (forall t, a | t in p.anc && a in p.anc[t] :: a in p.anc && p.anc[a] <= p.anc[t])
    && (forall t, a | t in p.anc && a in p.anc[t] && a !in p.parents[t] ::
          exists b | b in p.parents[t] && b in p.anc :: a in p.anc[b])
  }

  /** The transactions of the mempool that depend on t. */
  function Descendants(p: Pool, t: Tx): set<Tx> { set d | d in p.anc && t in p.anc[d] }

  ghost predicate AncestorClosed(p: Pool, s: set<Tx>) {
    s <= p.anc.Keys && forall t | t in s && t in p.anc :: p.anc[t] <= s
  }

  /** A transaction whose parents are all included may be included. */
  lemma ClosedByParents(p: Pool, s: set<Tx>, t: Tx)
    requires WellFormed(p) && AncestorClosed(p, s) && t in p.entries && p.parents[t] <= s
    ensures AncestorClosed(p, s + {t})
  {
    forall a | a in p.anc[t] ensures a in s {
      if a !in p.parents[t] {
        var b :| b in p.parents[t] && b in p.anc && a in p.anc[b];
      }
    }
  }

  /** An ancestor has strictly fewer ancestors: sorting by their number puts parents first. */
  lemma AncestorsCount(p: Pool, t: Tx, a: Tx)
    requires WellFormed(p) && t in p.anc && a in p.anc[t]
    ensures a in p.anc && |p.anc[a]| < |p.anc[t]|
  {
    SubsetSize(p.anc[a], p.anc[t] - {a});
  }

  // ------------------------------------------------------------------ packages

  /** t with its ancestors that are not yet in s. */
  ghost function Package(p: Pool, t: Tx, s: set<Tx>): set<Tx>
    requires t in p.anc
  {
    p.anc[t] - s + {t}
  }

  /** CTxMemPoolModifiedEntry. */
  datatype ModEntry = ModEntry(size: int, modFees: int, sigops: int)

  /** The cached ancestor totals of the mempool are correct. */
  ghost predicate Cached(p: Pool, totals: map<Tx, ModEntry>) {
    && totals.Keys == p.entries.Keys
    && forall t | t in totals && t in p.anc ::
         totals[t].size == Total(p, Size, Package(p, t, {})) && totals[t].sigops == Total(p, SigOps, Package(p, t, {}))
  }

  /** e does not underestimate the package of t over s. */
  ghost predicate Covers(p: Pool, e: ModEntry, t: Tx, s: set<Tx>)
    requires t in p.anc
  {
    e.size >= Total(p, Size, Package(p, t, s)) && e.sigops >= Total(p, SigOps, Package(p, t, s))
  }

  /** e is the exact size and sigop cost of the package of t over s. */
  ghost predicate Exact(p: Pool, e: ModEntry, t: Tx, s: set<Tx>)
    requires t in p.anc
  {
    e.size == Total(p, Size, Package(p, t, s)) && e.sigops == Total(p, SigOps, Package(p, t, s))
  }

  /** The tracked packages never underestimate, and those that have not failed before are
      exact; a package that is not tracked has no ancestor in s, so the totals cached in
      the mempool apply.  Nothing in block is tracked. */
  ghost predicate Tracked(p: Pool, mods: map<Tx, ModEntry>, failed: set<Tx>, s: set<Tx>, block: set<Tx>) {
    && (forall t | t in mods :: t in p.anc && t !in block && Covers(p, mods[t], t, s)
          && (t !in failed ==> Exact(p, mods[t], t, s)))
    && (forall t | t in p.anc && t !in block && t !in failed && t !in mods :: p.anc[t] !! s)
  }

  /** The ModEntry of t before an ancestor of t is included. */
  function Before(totals: map<Tx, ModEntry>, mods: map<Tx, ModEntry>, t: Tx): ModEntry
    requires t in totals
  {
    if t in mods then mods[t] else totals[t]
  }

  /** The size and sigop cost of a are taken off, by the constructor path or by
      update_for_parent_inclusion, which differ only in the fee they take off. */
  predicate Reduced(p: Pool, e: ModEntry, e': ModEntry, a: Tx) {
    e'.size == e.size - Val(p, Size, a) && e'.sigops == e.sigops - Val(p, SigOps, a)
  }

  /** mods' accounts for the inclusion of a in the packages of ds. */
  ghost predicate AccountsFor(p: Pool, totals: map<Tx, ModEntry>, mods: map<Tx, ModEntry>, mods': map<Tx, ModEntry>, a: Tx, ds: set<Tx>)
    requires ds <= totals.Keys
  {
    && mods'.Keys == mods.Keys + ds
    && forall t | t in mods' ::
         if t in ds then Reduced(p, Before(totals, mods, t), mods'[t], a) else t in mods && mods'[t] == mods[t]
  }

  /** The descendants of a outside added are reduced. */
  ghost predicate Accounts(p: Pool, totals: map<Tx, ModEntry>, mods: map<Tx, ModEntry>, mods': map<Tx, ModEntry>, a: Tx, added: set<Tx>)
    requires totals.Keys == p.entries.Keys == p.anc.Keys
  {
    AccountsFor(p, totals, mods, mods', a, Descendants(p, a) - added)
  }

  lemma PackageLess(p: Pool, k: Measure, t: Tx, s: set<Tx>, a: Tx)
    requires t in p.anc && a !in s && a != t
    ensures Total(p, k, Package(p, t, s + {a})) == Total(p, k, Package(p, t, s)) - if a in p.anc[t] then Val(p, k, a) else 0
  {
    if a in p.anc[t] {
      TotalRemove(p, k, Package(p, t, s), a);
      assert Package(p, t, s) - {a} == Package(p, t, s + {a});
    } else {
      assert Package(p, t, s) == Package(p, t, s + {a});
    }
  }

  lemma FullCovers(p: Pool, totals: map<Tx, ModEntry>, t: Tx, s: set<Tx>)
    requires WellFormed(p) && Cached(p, totals) && t in totals
    ensures t in p.anc && Covers(p, totals[t], t, s)
    ensures p.anc[t] !! s ==> Exact(p, totals[t], t, s)
  {
    TotalMono(p, Size, Package(p, t, s), Package(p, t, {}));
    TotalMono(p, SigOps, Package(p, t, s), Package(p, t, {}));
    if p.anc[t] !! s { assert Package(p, t, s) == Package(p, t, {}); }
  }

  /** e' accounts for the inclusion of a in the package of t. */
  lemma ReducedCovers(p: Pool, e: ModEntry, e': ModEntry, t: Tx, s: set<Tx>, a: Tx)
    requires t in p.anc && a !in s && a != t
    requires if a in p.anc[t] then Reduced(p, e, e', a) else e' == e
    ensures Covers(p, e, t, s) ==> Covers(p, e', t, s + {a})
    ensures Exact(p, e, t, s) ==> Exact(p, e', t, s + {a})
  {
    PackageLess(p, Size, t, s, a);
    PackageLess(p, SigOps, t, s, a);
    hide Total, Val, Package;
  }

  lemma AccountOne(p: Pool, totals: map<Tx, ModEntry>, mods: map<Tx, ModEntry>, mods': map<Tx, ModEntry>, failed: set<Tx>,
                   s: set<Tx>, block: set<Tx>, a: Tx, added: set<Tx>, t: Tx)
    requires WellFormed(p) && Cached(p, totals) && Tracked(p, mods, failed, s, block) && Accounts(p, totals, mods, mods', a, added)
    requires a in added && added <= block && a !in s && t in mods' && t !in block
    ensures t in p.anc && Covers(p, mods'[t], t, s + {a})
    ensures t !in failed ==> Exact(p, mods'[t], t, s + {a})
  {
    hide Covers, Exact, Total, Val, Reduced;
    assert t in p.anc && t in totals;
    FullCovers(p, totals, t, s);
    hide WellFormed, Cached;
    ReducedCovers(p, Before(totals, mods, t), mods'[t], t, s, a);
  }

  /** Accounting for one inclusion keeps the books. */
  lemma AccountStep(p: Pool, totals: map<Tx, ModEntry>, mods: map<Tx, ModEntry>, mods': map<Tx, ModEntry>, failed: set<Tx>,
                    s: set<Tx>, block: set<Tx>, a: Tx, added: set<Tx>)
    requires WellFormed(p) && Cached(p, totals) && Tracked(p, mods, failed, s, block) && Accounts(p, totals, mods, mods', a, added)
    requires a in added && added <= block && a !in s && AncestorClosed(p, block) && Descendants(p, a) * block <= added
    ensures Tracked(p, mods', failed, s + {a}, block)
  {
    forall t | t in mods' ensures t in p.anc && t !in block && Covers(p, mods'[t], t, s + {a})
                              && (t !in failed ==> Exact(p, mods'[t], t, s + {a}))
    {
      assert t !in block;
      AccountOne(p, totals, mods, mods', failed, s, block, a, added, t);
    }
  }
}
