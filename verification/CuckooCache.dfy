/** CuckooCache::cache (src/cuckoocache.h) with its bit-packed collection flags. */
module CuckooCache {
  import opened Powers
  import opened CuckooSpec

  // ------------------------------------------------------------- bit-packed flags

  predicate IsSet(byte: bv8, k: nat)
    requires k < 8
  {
    ((1 as bv8) << k) & byte != 0
  }

  lemma SetIs(byte: bv8, k: nat, j: nat)
    requires k < 8 && j < 8
    ensures IsSet(byte | ((1 as bv8) << k), j) == (j == k || IsSet(byte, j))
  {
  }

  lemma UnsetIs(byte: bv8, k: nat, j: nat)
    requires k < 8 && j < 8
    ensures IsSet(byte & !((1 as bv8) << k), j) == (j != k && IsSet(byte, j))
  {
  }

  /** The flags as a sequence. */
  ghost function Flags(mem: seq<bv8>, n: nat): (r: seq<bool>)
    requires n <= 8 * |mem|
    ensures |r| == n
  {
    seq(n, i requires 0 <= i < n => IsSet(mem[i / 8], i % 8))
  }

  method BitSet(mem: array<bv8>, s: nat, ghost n: nat)
    requires s < n <= 8 * mem.Length
    modifies mem
    ensures Flags(mem[..], n) == old(Flags(mem[..], n))[s := true]
  {
    hide IsSet;
    forall j: nat | j < 8 { SetIs(mem[s / 8], s % 8, j); }
    mem[s / 8] := mem[s / 8] | ((1 as bv8) << (s % 8));
    SameFlags(old(mem[..]), mem[..], s, n, true);
  }

  method BitUnset(mem: array<bv8>, s: nat, ghost n: nat)
    requires s < n <= 8 * mem.Length
    modifies mem
    ensures Flags(mem[..], n) == old(Flags(mem[..], n))[s := false]
  {
    hide IsSet;
    forall j: nat | j < 8 { UnsetIs(mem[s / 8], s % 8, j); }
    mem[s / 8] := mem[s / 8] & !((1 as bv8) << (s % 8));
    SameFlags(old(mem[..]), mem[..], s, n, false);
  }

  lemma AllSet()
    ensures forall j: nat | j < 8 :: IsSet(0xff, j)
  {
  }

  lemma SameFlags(m: seq<bv8>, m': seq<bv8>, s: nat, n: nat, on: bool)
    requires s < n <= 8 * |m| && |m'| == |m| && forall i | 0 <= i < |m| && i != s / 8 :: m'[i] == m[i]
    requires forall j: nat | j < 8 :: IsSet(m'[s / 8], j) == if j == s % 8 then on else IsSet(m[s / 8], j)
    ensures Flags(m', n) == Flags(m, n)[s := on]
  {
    hide IsSet;
  }

  // ------------------------------------------------------------------- the cache

  /** A 256-bit hash. */
  datatype Element = Element(bits: nat)

  class Cache {
    const zero: Element
    const depthLimit: nat
    const hash: (nat, Element) -> nat
    const mask: nat
    const epochSize: nat
    const table: array<Element>
    const mem: array<bv8>
    const epochFlags: array<bool>
    var counter: nat
    /** The elements ever inserted. */
    ghost var inserted: set<Element>

    function Loc(n: nat, e: Element): nat { BitAnd(hash(n, e), mask) }

    ghost predicate Sized() {
      && depthLimit >= 1 && table.Length == mask + 1 == epochFlags.Length <= 8 * mem.Length
      && epochSize == EpochSize(table.Length)
      && table as object != mem && table as object != epochFlags && mem as object != epochFlags
    }

    ghost function S(): (s: State<Element>)
      requires Sized()
      reads table, mem, epochFlags
    {
      State(table[..], Flags(mem[..], table.Length), epochFlags[..])
    }

    ghost predicate Valid()
      reads this, table, mem, epochFlags
    {
      && Sized() && Good(Loc, zero, S()) && Timely(S(), counter, epochSize)
      && forall i | 0 <= i < table.Length :: table[i] == zero || table[i] in inserted
    }

    /** The depth limit comes from a floating-point logarithm and is a parameter. */
    constructor (zero: Element, depthLimit: nat, hash: (nat, Element) -> nat)
      requires 1 <= depthLimit < 32
      ensures Valid() && inserted == {} && table.Length == Pow2(depthLimit)
      ensures epochSize == Max(1, 45 * table.Length / 100) <==> depthLimit <= 26
      ensures fresh(table) && fresh(mem) && fresh(epochFlags)
    {
      var size := Pow2(depthLimit);
      this.zero, this.depthLimit, this.hash, this.mask := zero, depthLimit, hash, size - 1;
      table := new Element[size](i => zero);
      mem := new bv8[(size + 7) / 8](i => 0xff);
      epochFlags := new bool[size](i => false);
      epochSize := EpochSize(size);
      counter := EpochSize(size);
      inserted := {};
      new;
      hide IsSet, Good, Timely, EpochSize;
      EpochSizeIs(size);
      Wide(depthLimit);
      AllSet();
      Initial(Loc, zero, S(), counter, epochSize);
    }

    /** The product wraps from 2^27 slots on. */
    static lemma Wide(depth: nat)
      ensures 45 * Pow2(depth) < 0x1_0000_0000 <==> depth <= 26
    {
      assert Pow2(8) == 256 && Pow2(13) == 8192;
      Pow2Add(13, 13);
      assert Pow2(26) == 67108864 && Pow2(27) == 134217728;
      if depth <= 26 { Pow2Mono(depth, 26); } else { Pow2Mono(27, depth); }
    }

    method Place(i: nat, e: Element, epoch: bool)
      requires Sized() && i < table.Length
      modifies table, mem, epochFlags
      ensures S() == Put(old(S()), i, e, epoch)
    {
      table[i] := e;
      assert mem[..] == old(mem[..]);
      BitUnset(mem, i, table.Length);
      epochFlags[i] := epoch;
      assert table[..] == old(table[..])[i := e] && epochFlags[..] == old(epochFlags[..])[i := epoch];
    }

    /** The first position of e that holds e; 8 if there is none. */
    method FindElement(e: Element) returns (n: nat)
      requires Sized()
      ensures n <= 8 && (n < 8 ==> Loc(n, e) < table.Length && table[Loc(n, e)] == e)
      ensures n == 8 ==> forall i | 0 <= i < table.Length && Own(Loc, e, i) :: table[i] != e
    {
      for k := 0 to 8
        invariant forall j: nat | j < k :: Loc(j, e) < table.Length && table[Loc(j, e)] != e
      {
        AndAtMost(hash(k, e), mask);
        if table[Loc(k, e)] == e { return k; }
      }
      return 8;
    }

    /** The first position of e that may be discarded; 8 if there is none. */
    method FindFree(e: Element) returns (n: nat)
      requires Sized()
      ensures n <= 8 && (n < 8 ==> Loc(n, e) < table.Length && S().discard[Loc(n, e)])
      ensures n == 8 ==> forall j: nat | j < 8 :: Loc(j, e) < table.Length && !S().discard[Loc(j, e)]
    {
      for k := 0 to 8
        invariant forall j: nat | j < k :: Loc(j, e) < table.Length && !S().discard[Loc(j, e)]
      {
        AndAtMost(hash(k, e), mask);
        var i := Loc(k, e);
        if IsSet(mem[i / 8], i % 8) { return k; }
      }
      return 8;
    }

    /** The position after the one e came from, in the order of its positions. */
    method NextPosition(e: Element, last: int) returns (n: nat)
      ensures n < 8
      ensures forall j: nat | j < 8 && Loc(j, e) == last && (forall k: nat | k < j :: Loc(k, e) != last) :: n == (j + 1) % 8
      ensures (forall j: nat | j < 8 :: Loc(j, e) != last) ==> n == 1
    {
      var k: nat := 0;
      while k < 8 && Loc(k, e) != last
        invariant k <= 8 && forall j: nat | j < k :: Loc(j, e) != last
      {
        k := k + 1;
      }
      return (1 + k) % 8;
    }
  
    // -------------------------------------------------------------------- epochs

    method CountLive() returns (n: nat)
      requires Sized()
      ensures n == Live(S())
    {
      hide IsSet;
      n := 0;
      for i := 0 to table.Length
        invariant n == Count(LiveFlags(S())[..i])
      {
        assert LiveFlags(S())[..i + 1][..i] == LiveFlags(S())[..i];
        if epochFlags[i] && !IsSet(mem[i / 8], i % 8) { n := n + 1; }
      }
      assert LiveFlags(S())[..table.Length] == LiveFlags(S());
    }

    method Age()
      requires Sized()
      modifies mem, epochFlags
      ensures Aged(old(S()), S())
    {
      hide IsSet;
      ghost var s := S();
      for i := 0 to table.Length
        invariant table[..] == s.table
        invariant forall k | 0 <= k < i :: !epochFlags[k] && S().discard[k] == (s.discard[k] || !s.epoch[k])
        invariant forall k | i <= k < table.Length :: epochFlags[k] == s.epoch[k] && S().discard[k] == s.discard[k]
      {
        if epochFlags[i] { epochFlags[i] := false; } else { BitSet(mem, i, table.Length); }
      }
    }

    ghost predicate Checked(s: State<Element>, c: nat, s': State<Element>, c': nat)
      requires Shape(s)
    {
      if c != 0 then s' == s && c' == c - 1
      else if Live(s) >= epochSize then Aged(s, s') && c' == epochSize
      else s' == s && c' == Max(1, Max(epochSize / 16, epochSize - Live(s)))
    }

    /** Every insertion counts down; at zero the entries to keep of the current epoch are counted,
        and the epoch ends if they fill it. */
    method EpochCheck()
      requires Valid()
      modifies this`counter, mem, epochFlags
      ensures Checked(old(S()), old(counter), S(), counter)
      ensures Sized() && Good(Loc, zero, S()) && table[..] == old(table[..])
      ensures Live(S()) + counter + 1 <= Bound(epochSize) && Old(S()) <= Bound(epochSize)
    {
      hide Good, Live, Old;
      if counter != 0 {
        counter := counter - 1;
        return;
      }
      var unused := CountLive();
      if unused >= epochSize {
        ghost var s := S();
        Age();
        AgedIs(Loc, zero, s, S());
        counter := epochSize;
      } else {
        counter := Max(1, Max(epochSize / 16, epochSize - unused));
      }
    }
  
    // ----------------------------------------------------------------- insertion

    /** One round: the element in hand takes a slot that may be discarded, or changes places. */
    method Round(ghost s0: State<Element>, ghost e0: Element, x: Element, epoch: bool, last: int)
      returns (done: bool, x': Element, epoch': bool, last': int, ghost dropped: Entry<Element>)
      requires Sized() && Chain(Loc, zero, s0, e0, S(), x, epoch)
      modifies table, mem, epochFlags
      ensures done ==> Replaced(Loc, zero, s0, e0, S(), dropped) && x in table[..] && dropped.discard
      ensures !done ==> Chain(Loc, zero, s0, e0, S(), x', epoch')
      ensures !done ==> forall j: nat | j < 8 :: Loc(j, x) < |s0.discard| && !s0.discard[Loc(j, x)]
    {
      ghost var s := S();
      var n := FindFree(x);
      x', epoch', last', dropped := x, epoch, last, Entry(x, epoch, false);
      hide Entries, Good, Once, Placed, Live, Old, Replaced, BitAnd;
      if n < 8 {
        ChainPut(Loc, zero, s0, e0, s, x, epoch, Loc(n, x));
        dropped := Entry(table[Loc(n, x)], epochFlags[Loc(n, x)], true);
        Place(Loc(n, x), x, epoch);
        assert S().table[Loc(n, x)] == x;
        return true, x, epoch, last, dropped;
      }
      var k := NextPosition(x, last);
      last' := Loc(k, x);
      ChainSwap(Loc, zero, s0, e0, s, x, epoch, last');
      x', epoch' := table[last'], epochFlags[last'];
      assert S().discard == S().discard[last' := false];
      Place(last', x, epoch);
      done := false;
    }

    method Displace(e: Element) returns (ghost dropped: Entry<Element>)
      requires Sized() && Good(Loc, zero, S()) && forall i | 0 <= i < table.Length && Own(Loc, e, i) :: table[i] != e
      modifies table, mem, epochFlags
      ensures Replaced(Loc, zero, old(S()), e, S(), dropped)
      ensures (exists n: nat | n < 8 :: Loc(n, e) < table.Length && old(S()).discard[Loc(n, e)]) ==> e in table[..] && dropped.discard
    {
      hide Good, Chain, Replaced, BitAnd;
      ghost var s0 := S();
      ChainStart(Loc, zero, s0, e);
      var x, epoch, last: int := e, true, 0xffff_ffff;
      for depth := 0 to depthLimit
        invariant Chain(Loc, zero, s0, e, S(), x, epoch)
        invariant depth == 0 ==> x == e
        invariant depth > 0 ==> forall j: nat | j < 8 :: Loc(j, e) < |s0.discard| && !s0.discard[Loc(j, e)]
      {
        var done;
        done, x, epoch, last, dropped := Round(s0, e, x, epoch, last);
        if done { return; }
      }
      ChainDrop(Loc, zero, s0, e, S(), x, epoch);
      dropped := Entry(x, epoch, false);
    }

    /** After the epoch check, inserting an element that is in none of its positions replaces one
        entry of the table, which may be discarded unless every position of the element is taken by
        an entry to keep; an element that is there already becomes an entry to keep of this epoch. */
    method Insert(e: Element) returns (ghost present: bool, ghost checked: State<Element>, ghost dropped: Entry<Element>)
      requires Valid()
      modifies this, table, mem, epochFlags
      ensures Valid() && inserted == old(inserted) + {e}
      ensures Shape(checked) && checked.table == old(table[..]) && Checked(old(S()), old(counter), checked, counter)
      ensures present <==> exists i :: 0 <= i < table.Length && Own(Loc, e, i) && old(table[i]) == e
      ensures present ==> exists i :: 0 <= i < table.Length && old(table[i]) == e && S() == Put(checked, i, e, true)
      ensures !present ==> Replaced(Loc, zero, checked, e, S(), dropped)
      ensures !present && (exists n: nat | n < 8 :: Loc(n, e) < table.Length && checked.discard[Loc(n, e)]) ==> e in table[..] && dropped.discard
    {
      hide Good, Chain, Replaced, Live, Old, BitAnd;
      inserted := inserted + {e};
      EpochCheck();
      dropped := Entry(e, true, false);
      var n := FindElement(e);
      checked := S();
      if n < 8 {
        Refreshed(Loc, zero, checked, Loc(n, e));
        Place(Loc(n, e), e, true);
        assert S().table[Loc(n, e)] == e;
        present := true;
        return;
      }
      present := false;
      dropped := Displace(e);
      Members(checked, S(), e, dropped);
    }

    lemma Members(s: State<Element>, t: State<Element>, e: Element, dropped: Entry<Element>)
      requires Replaced(Loc, zero, s, e, t, dropped)
      ensures forall i | 0 <= i < |t.table| :: t.table[i] in s.table || t.table[i] == e
      ensures Good(Loc, zero, t) && Live(t) <= Live(s) + 1 && Old(t) <= Old(s)
    {
      forall i | 0 <= i < |t.table| ensures t.table[i] in s.table || t.table[i] == e {
        assert t.table[i] in multiset(t.table);
        assert t.table[i] in multiset(s.table) + multiset{e};
      }
    }

    method Contains(e: Element, erase: bool) returns (found: bool)
      requires Valid()
      modifies mem
      ensures Valid() && found == exists i :: 0 <= i < table.Length && Own(Loc, e, i) && table[i] == e
      ensures e != zero ==> (found <==> e in table[..]) && (found ==> e in inserted)
      ensures !(found && erase) ==> S() == old(S())
      ensures found && erase ==> exists i | 0 <= i < table.Length && table[i] == e :: S() == old(S()).(discard := old(S()).discard[i := true])
    {
      hide Good, Live, Old, BitAnd;
      var n := FindElement(e);
      if e != zero { FoundIff(Loc, zero, S(), e); }
      if n < 8 {
        if erase {
          Released(Loc, zero, S(), Loc(n, e));
          BitSet(mem, Loc(n, e), table.Length);
        }
        return true;
      }
      return false;
    }
  }
}
