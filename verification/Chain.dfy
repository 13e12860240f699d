/** The block index: skip pointers, the active chain and locators (src/chain.cpp, src/chain.h). */
module Chain {
  import opened Powers

  // ---------------------------------------------------------------- skip heights

  /** Turns the lowest one bit off. */
  function InvertLowestOne(n: nat): nat { if n == 0 then 0 else BitAnd(n, n - 1) }

  function GetSkipHeight(height: nat): (r: nat)
    ensures height > 0 ==> r < height
  {
    if height < 2 then 0
    else
      SkipBound(height);
      if height % 2 == 1 then InvertLowestOne(InvertLowestOne(height - 1)) + 1 else InvertLowestOne(height)
  }

  lemma SkipBound(height: nat)
    requires height >= 2
    ensures InvertLowestOne(height) < height && InvertLowestOne(InvertLowestOne(height - 1)) + 1 < height
  {
    hide BitAnd;
    AndAtMost(height, height - 1);
    AndAtMost(height - 1, height - 2);
    var x := InvertLowestOne(height - 1);
    if x > 0 { AndAtMost(x, x - 1); }
  }

  lemma {:induction false} AndSelf(n: nat)
    ensures BitAnd(n, n) == n
  {
    if n > 0 { AndSelf(n / 2); }
  }

  /** n followed by k zero bits. */
  function Shifted(n: nat, k: nat): (r: nat)
    ensures n > 0 ==> r > 0
  {
    if k == 0 then n else 2 * Shifted(n, k - 1)
  }

  /** Every positive number ends in a one bit followed by zeros, and that bit is the one turned off. */
  lemma {:induction false} InvertIs(n: nat) returns (m: nat, k: nat)
    requires n > 0
    ensures n == Shifted(2 * m + 1, k) && InvertLowestOne(n) == Shifted(2 * m, k)
  {
    if n % 2 == 1 {
      m, k := n / 2, 0;
      AndSelf(m);
      assert n == 2 * m + 1 && (n - 1) / 2 == m;
    } else {
      m, k := InvertIs(n / 2);
      k := k + 1;
      Doubled(n / 2);
    }
  }

  lemma Doubled(n: nat)
    requires n > 0
    ensures BitAnd(2 * n, 2 * n - 1) == 2 * BitAnd(n, n - 1)
  {
    assert (2 * n - 1) / 2 == n - 1 && 2 * n / 2 == n;
    if n == 1 { assert BitAnd(1, 0) == 0; }
  }

  // ----------------------------------------------------------------- block index

  /** A header, with its hash and the work its bits stand for. */
  datatype Header = Header(hash: nat, prev: nat, time: nat, proof: nat)

  const W256: nat := 0x1_0000_0000_0000_0000_0000_0000_0000_0000_0000_0000_0000_0000_0000_0000_0000_0000

  function Later(a: nat, b: nat): nat { if a < b then b else a }

  class BlockIndex {
    const header: Header
    const pprev: BlockIndex?
    const nHeight: nat
    const nTimeMax: nat
    const nChainWork: nat
    var pskip: BlockIndex?

    constructor (header: Header, pprev: BlockIndex?)
      requires pprev != null ==> Rooted(pprev) && Recorded(pprev)
      ensures this.header == header && this.pprev == pprev && pskip == null && Rooted(this) && Recorded(this)
    {
      this.header := header;
      this.pprev := pprev;
      this.nHeight := if pprev == null then 0 else pprev.nHeight + 1;
      this.nTimeMax := if pprev == null then header.time else Later(pprev.nTimeMax, header.time);
      this.nChainWork := ((if pprev == null then 0 else pprev.nChainWork) + header.proof) % W256;
      this.pskip := null;
    }

    /** A block without a previous one gets no skip pointer. */
    method BuildSkip()
      requires Rooted(this) && (pprev != null ==> Skips(pprev)) && (pprev == null ==> pskip == null)
      modifies this`pskip
      ensures Skips(this)
    {
      if pprev != null {
        LineBelow(this);
        pskip := pprev.GetAncestor(GetSkipHeight(nHeight));
        assert Ancestor(this, GetSkipHeight(nHeight)) == Ancestor(pprev, GetSkipHeight(nHeight));
      }
    }

    /** The fast walk finds the block that following pprev would. */
    method GetAncestor(height: int) returns (r: BlockIndex?)
      requires Rooted(this) && Skips(this)
      ensures Skips(this) && r == if 0 <= height <= nHeight then Ancestor(this, height) else null
    {
      if height > nHeight || height < 0 { return null; }
      var walk: BlockIndex, heightWalk := this, nHeight;
      while heightWalk > height
        invariant walk.nHeight == heightWalk >= height && Rooted(walk) && Skips(walk)
        invariant Skips(this) && Ancestor(walk, height) == Ancestor(this, height)
      {
        var heightSkip := GetSkipHeight(heightWalk);
        var heightSkipPrev := GetSkipHeight(heightWalk - 1);
        var skip := walk.pskip;
        if skip != null && (heightSkip == height || (heightSkip > height && !(heightSkipPrev < heightSkip - 2 && heightSkipPrev >= height))) {
          AncestorOf(walk, heightSkip, height);
          SkipsBelow(walk, heightSkip);
          walk, heightWalk := skip, heightSkip;
        } else {
          walk, heightWalk := walk.pprev, heightWalk - 1;
        }
      }
      return walk;
    }
  }

  /** Heights count the blocks below. */
  predicate Rooted(b: BlockIndex)
    decreases b.nHeight
  {
    if b.pprev == null then b.nHeight == 0 else b.nHeight == b.pprev.nHeight + 1 && Rooted(b.pprev)
  }

  /** The simple walk. */
  function Ancestor(b: BlockIndex, h: nat): (a: BlockIndex)
    requires Rooted(b) && h <= b.nHeight
    ensures Rooted(a) && a.nHeight == h
    decreases b.nHeight
  {
    if h == b.nHeight then b else Ancestor(b.pprev, h)
  }

  lemma {:induction false} AncestorOf(b: BlockIndex, i: nat, j: nat)
    requires Rooted(b) && j <= i <= b.nHeight
    ensures Ancestor(Ancestor(b, i), j) == Ancestor(b, j)
    decreases b.nHeight
  {
    if i < b.nHeight { AncestorOf(b.pprev, i, j); }
  }

  /** The latest time and the work of a block follow from those of the block before. */
  predicate Recorded(b: BlockIndex)
    requires Rooted(b)
    decreases b.nHeight
  {
    if b.pprev == null then b.nTimeMax == b.header.time && b.nChainWork == b.header.proof % W256
    else
      && b.nTimeMax == Later(b.pprev.nTimeMax, b.header.time)
      && b.nChainWork == (b.pprev.nChainWork + b.header.proof) % W256 && Recorded(b.pprev)
  }

  /** The work of a block and of all below it. */
  function TotalWork(b: BlockIndex): nat
    requires Rooted(b)
    decreases b.nHeight
  {
    b.header.proof + if b.pprev == null then 0 else TotalWork(b.pprev)
  }

  /** What is recorded is the total work, in 256 bits. */
  lemma {:induction false} WorkIsTotal(b: BlockIndex)
    requires Rooted(b) && Recorded(b)
    ensures b.nChainWork == TotalWork(b) % W256
    decreases b.nHeight
  {
    if b.pprev != null {
      WorkIsTotal(b.pprev);
      ModAdd(TotalWork(b.pprev), b.header.proof, W256);
    }
  }

  /** The latest time of the chain up to a block: no block of it is later, and one is as late. */
  lemma {:induction false} TimeMaxIs(b: BlockIndex, t: int)
    requires Rooted(b) && Recorded(b)
    ensures b.nTimeMax >= t <==> exists h: nat :: SinceAt(b, h, t)
    decreases b.nHeight
  {
    if b.header.time >= t {
      assert SinceAt(b, b.nHeight, t);
    } else if b.pprev != null {
      TimeMaxIs(b.pprev, t);
      if h: nat :| SinceAt(b.pprev, h, t) { assert SinceAt(b, h, t); }
      if h: nat :| SinceAt(b, h, t) { assert SinceAt(b.pprev, h, t); }
    }
  }

  ghost predicate SinceAt(b: BlockIndex, h: nat, t: int)
    requires Rooted(b)
  {
    h <= b.nHeight && Ancestor(b, h).header.time >= t
  }

  lemma {:induction false} RecordedBelow(b: BlockIndex, h: nat)
    requires Rooted(b) && Recorded(b) && h <= b.nHeight
    ensures Recorded(Ancestor(b, h)) && Ancestor(b, h).nTimeMax <= b.nTimeMax
    decreases b.nHeight
  {
    if h < b.nHeight { RecordedBelow(b.pprev, h); }
  }

  /** The block and all below it. */
  ghost function Line(b: BlockIndex): (s: set<BlockIndex>)
    requires Rooted(b)
    ensures b in s
    decreases b.nHeight
  {
    if b.pprev == null then {b} else {b} + Line(b.pprev)
  }

  lemma {:induction false} InLine(b: BlockIndex, a: BlockIndex)
    requires Rooted(b)
    ensures a in Line(b) <==> a.nHeight <= b.nHeight && a == Ancestor(b, a.nHeight)
    ensures a in Line(b) ==> Rooted(a)
    decreases b.nHeight
  {
    if b.pprev != null { InLine(b.pprev, a); }
  }

  lemma LineBelow(b: BlockIndex)
    requires Rooted(b) && b.pprev != null
    ensures Line(b) == {b} + Line(b.pprev) && b !in Line(b.pprev)
  {
    InLine(b.pprev, b);
  }

  /** A skip pointer, where there is one, is the ancestor at the skip height. */
  ghost predicate SkipOk(b: BlockIndex)
    reads b
  {
    b.pskip != null ==> b.pprev != null && Rooted(b) && b.pskip == Ancestor(b, GetSkipHeight(b.nHeight))
  }

  ghost predicate Skips(b: BlockIndex)
    requires Rooted(b)
    reads Line(b)
    decreases b.nHeight
  {
    SkipOk(b) && (b.pprev != null ==> Skips(b.pprev))
  }

  lemma {:induction false} SkipsBelow(b: BlockIndex, h: nat)
    requires Rooted(b) && Skips(b) && h <= b.nHeight
    ensures Skips(Ancestor(b, h))
    decreases b.nHeight
  {
    if h < b.nHeight { SkipsBelow(b.pprev, h); }
  }

  /** A block index whose skip pointers were all set by BuildSkip. */
  ghost predicate Tree(t: set<BlockIndex>)
    reads t
  {
    forall b | b in t :: Rooted(b) && (b.pprev != null ==> b.pprev in t) && SkipOk(b)
  }

  lemma {:induction false} TreeSkips(t: set<BlockIndex>, b: BlockIndex)
    requires Tree(t) && b in t
    ensures Skips(b)
    decreases b.nHeight
  {
    if b.pprev != null { TreeSkips(t, b.pprev); }
  }

  ghost predicate Filed(m: map<nat, BlockIndex>) {
    forall h | h in m ::
      && m[h].header.hash == h && Rooted(m[h]) && Recorded(m[h])
      && (m[h].pprev != null ==> m[h].pprev.header.hash == m[h].header.prev)
  }

  ghost predicate Best(m: map<nat, BlockIndex>, best: BlockIndex?) {
    && (best == null <==> m == map[]) && (best != null ==> best.header.hash in m && m[best.header.hash] == best)
    && forall h | h in m :: best != null && m[h].nChainWork <= best.nChainWork
  }

  lemma BestNext(m: map<nat, BlockIndex>, best: BlockIndex?, b: BlockIndex)
    requires Best(m, best) && b.header.hash !in m
    ensures Best(m[b.header.hash := b], if best == null || best.nChainWork < b.nChainWork then b else best)
  {
  }

  lemma FiledNext(m: map<nat, BlockIndex>, b: BlockIndex)
    requires Filed(m) && b.header.hash !in m && Rooted(b) && Recorded(b) && (b.pprev != null ==> b.pprev.header.hash == b.header.prev)
    ensures Filed(m[b.header.hash := b])
  {
    hide Rooted, Recorded;
  }

  /** mapBlockIndex and pindexBestHeader. */
  class BlockTree {
    var mapBlockIndex: map<nat, BlockIndex>
    var pindexBestHeader: BlockIndex?

    /** Blocks are found under their own hashes, each before those that build on it, and no block
        has more work than the best header. */
    ghost predicate Valid()
      reads this, mapBlockIndex.Values
    {
      Tree(mapBlockIndex.Values) && Filed(mapBlockIndex) && Best(mapBlockIndex, pindexBestHeader)
    }

    constructor ()
      ensures Valid() && mapBlockIndex == map[]
    {
      mapBlockIndex, pindexBestHeader := map[], null;
    }

    /** Adding a block that is not known yet; a hash is never that of its own previous block. */
    method AddToBlockIndex(header: Header) returns (b: BlockIndex)
      requires Valid() && header.prev != header.hash
      modifies this
      ensures Valid() && header.hash in mapBlockIndex && b == mapBlockIndex[header.hash]
      ensures header.hash in old(mapBlockIndex) ==> mapBlockIndex == old(mapBlockIndex) && pindexBestHeader == old(pindexBestHeader)
      ensures header.hash !in old(mapBlockIndex) ==>
                && fresh(b) && b.header == header && mapBlockIndex == old(mapBlockIndex)[header.hash := b]
                && b.pprev == (if header.prev in old(mapBlockIndex) then old(mapBlockIndex)[header.prev] else null)
                && pindexBestHeader == if old(pindexBestHeader) == null || old(pindexBestHeader).nChainWork < b.nChainWork then b else old(pindexBestHeader)
    {
      hide Best, Rooted, Recorded;
      if header.hash in mapBlockIndex { return mapBlockIndex[header.hash]; }
      ghost var t := mapBlockIndex.Values;
      var pprev: BlockIndex? := null;
      if header.prev in mapBlockIndex { pprev := mapBlockIndex[header.prev]; }
      assert pprev != null ==> pprev in t;
      b := new BlockIndex(header, pprev);
      if pprev != null { TreeSkips(t, pprev); }
      b.BuildSkip();
      assert Tree(t + {b});
      GrownValues(mapBlockIndex, header.hash, b);
      FiledNext(mapBlockIndex, b);
      BestNext(mapBlockIndex, pindexBestHeader, b);
      mapBlockIndex := mapBlockIndex[header.hash := b];
      if pindexBestHeader == null || pindexBestHeader.nChainWork < b.nChainWork { pindexBestHeader := b; }
    }
  }

  lemma GrownValues(m: map<nat, BlockIndex>, h: nat, b: BlockIndex)
    requires h !in m
    ensures m[h := b].Values == m.Values + {b}
  {
    var m' := m[h := b];
    assert m'[h] == b;
    forall v | v in m.Values ensures v in m'.Values {
      var k :| k in m && m[k] == v;
      assert m'[k] == v;
    }
  }

  // ---------------------------------------------------------------- active chain

  /** A block at the top of which all entries are its ancestors. */
  ghost predicate ChainOf(c: seq<BlockIndex?>, tip: BlockIndex) {
    Rooted(tip) && |c| == tip.nHeight + 1 && forall i | 0 <= i < |c| :: c[i] == Ancestor(tip, i)
  }

  /** Exponentially larger steps back. */
  function Back(k: nat): nat { if k <= 11 then k else 9 + Pow2(k - 10) }

  class ActiveChain {
    var vChain: seq<BlockIndex?>

    ghost predicate Valid()
      reads this
    {
      vChain != [] ==> vChain[|vChain| - 1] != null && ChainOf(vChain, vChain[|vChain| - 1])
    }

    constructor ()
      ensures Valid() && vChain == []
    {
      vChain := [];
    }

    /** Entries below the first one that is right already are left alone, and are right too. */
    method SetTip(pindex: BlockIndex?)
      requires Valid() && (pindex != null ==> Rooted(pindex))
      modifies this
      ensures Valid() && if pindex == null then vChain == [] else ChainOf(vChain, pindex)
    {
      if pindex == null {
        vChain := [];
        return;
      }
      ghost var before := vChain;
      var size := pindex.nHeight + 1;
      vChain := if size <= |vChain| then vChain[..size] else vChain + seq(size - |vChain|, i => null);
      var walk: BlockIndex? := pindex;
      while walk != null && vChain[walk.nHeight] != walk
        invariant |vChain| == size
        invariant walk != null ==> walk.nHeight < size && Rooted(walk) && walk == Ancestor(pindex, walk.nHeight)
        invariant forall i | 0 <= i < size && (walk == null || i > walk.nHeight) :: vChain[i] == Ancestor(pindex, i)
        invariant walk != null ==> forall i | 0 <= i <= walk.nHeight :: vChain[i] == if i < |before| then before[i] else null
        decreases if walk == null then 0 else walk.nHeight + 1
      {
        vChain := vChain[walk.nHeight := walk];
        if walk.nHeight > 0 { AncestorOf(pindex, walk.nHeight, walk.nHeight - 1); }
        walk := walk.pprev;
      }
      if walk != null {
        forall i | 0 <= i <= walk.nHeight ensures vChain[i] == Ancestor(pindex, i) {
          AncestorOf(before[|before| - 1], walk.nHeight, i);
          AncestorOf(pindex, walk.nHeight, i);
        }
      }
    }

    predicate Contains(b: BlockIndex)
      reads this
    {
      b.nHeight < |vChain| && vChain[b.nHeight] == b
    }

    /** The highest block of the chain that is the given one or below it. */
    method FindFork(pindex: BlockIndex?) returns (r: BlockIndex?)
      requires Valid() && (pindex != null ==> Rooted(pindex) && Skips(pindex))
      ensures pindex == null ==> r == null
      ensures r != null ==> pindex != null && r in vChain && r.nHeight <= pindex.nHeight && r == Ancestor(pindex, r.nHeight)
      ensures pindex != null ==>
                forall h: nat | h <= pindex.nHeight && (r == null || h > r.nHeight) :: Ancestor(pindex, h) !in vChain
    {
      if pindex == null { return null; }
      r := pindex;
      if pindex.nHeight > |vChain| - 1 { r := pindex.GetAncestor(|vChain| - 1); }
      while r != null && !Contains(r)
        invariant r != null ==> Rooted(r) && r.nHeight <= pindex.nHeight && r == Ancestor(pindex, r.nHeight)
        invariant forall h: nat | h <= pindex.nHeight && (r == null || h > r.nHeight) :: Ancestor(pindex, h) !in vChain
        decreases if r == null then 0 else r.nHeight + 1
      {
        if r.nHeight > 0 { AncestorOf(pindex, r.nHeight, r.nHeight - 1); }
        r := r.pprev;
      }
    }
  
    /** The first block of the chain that is not before the given time, by binary search on the
        latest times. */
    method FindEarliestAtLeast(time: int) returns (r: BlockIndex?)
      requires Valid() && (vChain != [] ==> Recorded(Tip()))
      ensures r == null ==> forall i | 0 <= i < |vChain| :: vChain[i].header.time < time
      ensures r != null ==> r.nHeight < |vChain| && vChain[r.nHeight] == r && r.header.time >= time
      ensures r != null ==> forall i | 0 <= i < r.nHeight :: vChain[i].header.time < time
    {
      var low, high := 0, |vChain|;
      while low < high
        invariant 0 <= low <= high <= |vChain|
        invariant low > 0 ==> vChain[low - 1].nTimeMax < time
        invariant high < |vChain| ==> vChain[high].nTimeMax >= time
      {
        var mid := (low + high) / 2;
        if vChain[mid].nTimeMax < time { low := mid + 1; } else { high := mid; }
      }
      if low > 0 { NoneSince(low - 1, time); }
      if low == |vChain| { return null; }
      FirstSince(low, time);
      return vChain[low];
    }

    lemma NoneSince(k: nat, time: int)
      requires Valid() && k < |vChain| && Recorded(Tip()) && vChain[k].nTimeMax < time
      ensures forall i | 0 <= i <= k :: vChain[i].header.time < time
    {
      RecordedBelow(Tip(), k);
      TimeMaxIs(vChain[k], time);
      forall i | 0 <= i <= k ensures vChain[i].header.time < time {
        AncestorOf(Tip(), k, i);
        assert !SinceAt(vChain[k], i, time);
      }
    }

    lemma FirstSince(k: nat, time: int)
      requires Valid() && k < |vChain| && Recorded(Tip()) && vChain[k].nTimeMax >= time && forall i | 0 <= i < k :: vChain[i].header.time < time
      ensures vChain[k].header.time >= time && vChain[k].nHeight == k
    {
      RecordedBelow(Tip(), k);
      TimeMaxIs(vChain[k], time);
      var h: nat :| SinceAt(vChain[k], h, time);
      AncestorOf(Tip(), k, h);
    }

    function Tip(): BlockIndex?
      reads this
    {
      if vChain == [] then null else vChain[|vChain| - 1]
    }

    /** The chain's own index is used where the block is on the chain. */
    method Below(b: BlockIndex, h: nat) returns (r: BlockIndex)
      requires Valid() && Rooted(b) && Skips(b) && h <= b.nHeight
      ensures r == Ancestor(b, h) && Skips(r)
    {
      SkipsBelow(b, h);
      if Contains(b) {
        AncestorOf(Tip(), b.nHeight, h);
        r := vChain[h];
      } else {
        r := b.GetAncestor(h);
        SkipsBelow(b, h);
      }
    }

    lemma Top()
      requires Valid()
      ensures Tip() != null ==> Rooted(Tip())
      ensures forall b: BlockIndex | Rooted(b) :: Ancestor(b, b.nHeight) == b
    {
    }

    /** The blocks at ever larger distances from the first, down to the one without a previous block. */
    method GetLocator(start: BlockIndex?) returns (have: seq<BlockIndex>)
      requires Valid() && (start != null ==> Rooted(start) && Skips(start))
      requires vChain != [] ==> Skips(Tip())
      ensures var first := if start != null then start else Tip();
              if first == null then have == []
              else |have| > 0 && have[|have| - 1].nHeight == 0 && forall k | 0 <= k < |have| ::
                     have[k] == Ancestor(first, Height(first.nHeight, k)) && (k + 1 < |have| ==> have[k].nHeight > 0)
    {
      hide Ancestor, Rooted, Skips, Back, ChainOf;
      var nStep := 1;
      have := [];
      First();
      Top();
      var first := if start != null then start else Tip();
      var pindex: BlockIndex? := first;
      while pindex != null
        invariant pindex == null ==> first == null && have == []
        invariant pindex != null ==> Rooted(pindex) && Skips(pindex) && Rooted(first) && pindex == Ancestor(first, Height(first.nHeight, |have|))
        invariant pindex != null ==> forall k | 0 <= k < |have| :: have[k] == Ancestor(first, Height(first.nHeight, k)) && have[k].nHeight > 0
        invariant nStep == Back(|have| + 1) - Back(|have|)
        invariant Valid()
        decreases if pindex == null then 0 else pindex.nHeight + 1
      {
        Steps(|have|);
        have := have + [pindex];
        if pindex.nHeight == 0 { break; }
        var nHeight := if pindex.nHeight - nStep > 0 then pindex.nHeight - nStep else 0;
        AncestorOf(first, pindex.nHeight, nHeight);
        pindex := Below(pindex, nHeight);
        if |have| > 10 { nStep := nStep * 2; }
      }
    }
  }

  function Height(h: nat, k: nat): nat { if h > Back(k) then h - Back(k) else 0 }

  lemma Steps(n: nat)
    ensures Back(n) < Back(n + 1)
    ensures Back(n + 2) - Back(n + 1) == if n + 1 > 10 then 2 * (Back(n + 1) - Back(n)) else Back(n + 1) - Back(n)
  {
    assert Pow2(1) == 2 && Pow2(2) == 4;
  }

  lemma First()
    ensures Back(0) == 0 && Back(1) == 1
  {
  }
}
